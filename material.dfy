/** Isotropic linear elastic material and its 3 x 3 constitutive matrices,
    for strains ordered (normal-x, normal-y, shear-xy). */
module Materials {
  import opened Matrices

  /** Young's modulus and Poisson's ratio used when none are given (steel). */
  const DefaultE: real := 200000000000.0
  const DefaultNu: real := 0.28

  datatype Material = Material(E: real, nu: real)

  /** The constructor keeps both constants as given; omitted ones default to steel. */
  function NewMaterial(E: real := DefaultE, nu: real := DefaultNu): (m: Material)
    ensures m.E == E && m.nu == nu
  {
    Material(E, nu)
  }

  /** Shear modulus G = E / (2 (1 + nu)). */
  function ShearModulus(m: Material): real
    requires m.nu != -1.0
  {
    m.E / (2.0 * (1.0 + m.nu))
  }

  /** Lame's first parameter E nu / ((1 + nu)(1 - 2 nu)). */
  function Lame(m: Material): real
    requires m.nu != -1.0 && m.nu != 0.5
  {
    m.E * m.nu / ((1.0 + m.nu) * (1.0 - 2.0 * m.nu))
  }

  /** The plane-stress factor E / (1 - nu^2). */
  function PlaneStressFactor(m: Material): real
    requires m.nu != 1.0 && m.nu != -1.0
  {
    m.E / (1.0 - m.nu * m.nu)
  }

  /** A quotient times its divisor gives back the dividend. */
  lemma QuotientTimesDivisor(n: real, d: real)
    requires d != 0.0
    ensures (n / d) * d == n
  {
  }

  /** Normal strains are not coupled to shear: D[0][2], D[1][2] and their
      mirror entries are zero. */
  predicate Uncoupled(D: Matrix)
    requires IsSquare(D, 3)
  {
    D[0][2] == 0.0 && D[1][2] == 0.0 && D[2][0] == 0.0 && D[2][1] == 0.0
  }

  /** The symmetric, shear-uncoupled 3 x 3 matrix with the given entries. */
  function Constitutive(d00: real, d01: real, d22: real): (D: Matrix)
    ensures IsSquare(D, 3) && IsSymmetric(D) && Uncoupled(D)
    ensures D[0][0] == D[1][1] == d00 && D[0][1] == D[1][0] == d01 && D[2][2] == d22
  {
    [[d00, d01, 0.0],
     [d01, d00, 0.0],
     [0.0, 0.0, d22]]
  }

  /** Plane strain: D00 = D11 = 2G + lame, D01 = D10 = lame, D22 = G. The
      source divides by zero when nu is -1 or 1/2. */
  function PlaneStrainMatrix(m: Material): (D: Matrix)
    requires m.nu != -1.0 && m.nu != 0.5
    ensures IsSquare(D, 3) && IsSymmetric(D) && Uncoupled(D)
    ensures D[2][2] == ShearModulus(m) && D[0][1] == Lame(m)
    ensures D[0][0] == D[1][1] == 2.0 * D[2][2] + D[0][1]
  {
    Constitutive(2.0 * ShearModulus(m) + Lame(m), Lame(m), ShearModulus(m))
  }

  /** 2G + lame times (1 + nu)(1 - 2 nu) is E (1 - nu), and that divisor is
      not zero. */
  lemma PlaneStrainProduct(m: Material)
    requires m.nu != -1.0 && m.nu != 0.5
    ensures (1.0 + m.nu) * (1.0 - 2.0 * m.nu) != 0.0
    ensures (2.0 * ShearModulus(m) + Lame(m)) * ((1.0 + m.nu) * (1.0 - 2.0 * m.nu)) == m.E * (1.0 - m.nu)
  {
    var E, nu := m.E, m.nu;
    var a, b := 1.0 + nu, 1.0 - 2.0 * nu;
    var p := a * b;
    var G, lame := ShearModulus(m), Lame(m);
    assert (2.0 * G) * a == E by {
      QuotientTimesDivisor(E, 2.0 * a);
    }
    assert lame * p == E * nu by {
      QuotientTimesDivisor(E * nu, p);
    }
    assert (2.0 * G) * p == E * b by {
      assert (2.0 * G) * (a * b) == ((2.0 * G) * a) * b;
    }
    assert (2.0 * G + lame) * p == (2.0 * G) * p + lame * p;
  }

  /** In closed form, D00 = D11 = E (1 - nu) / ((1 + nu)(1 - 2 nu)). */
  lemma PlaneStrainDiagonal(m: Material)
    requires m.nu != -1.0 && m.nu != 0.5
    ensures PlaneStrainMatrix(m)[0][0] == m.E * (1.0 - m.nu) / ((1.0 + m.nu) * (1.0 - 2.0 * m.nu))
  {
    PlaneStrainProduct(m);
    Cancel(2.0 * ShearModulus(m) + Lame(m), m.E * (1.0 - m.nu), (1.0 + m.nu) * (1.0 - 2.0 * m.nu));
  }

  /** For a physically admissible material (E > 0, -1 < nu < 1/2) the
      plane-strain matrix has a positive diagonal. */
  lemma PlaneStrainPositiveDiagonal(m: Material)
    requires m.E > 0.0 && -1.0 < m.nu < 0.5
    ensures PlaneStrainMatrix(m)[0][0] > 0.0 && PlaneStrainMatrix(m)[1][1] > 0.0
    ensures PlaneStrainMatrix(m)[2][2] > 0.0
  {
    var p := (1.0 + m.nu) * (1.0 - 2.0 * m.nu);
    assert p > 0.0;
    var n := m.E * (1.0 - m.nu);
    assert n > 0.0;
    assert n / p > 0.0;
    assert 2.0 * (1.0 + m.nu) > 0.0;
    assert m.E / (2.0 * (1.0 + m.nu)) > 0.0;
  }

  /** Plane stress as the source writes it: D00 = D11 = E / (1 - nu^2),
      D01 = D10 = nu D00 and D22 = D00 (1 + nu). The source divides by zero
      when nu is 1 or -1. */
  function PlaneStressMatrixAsWritten(m: Material): (D: Matrix)
    requires m.nu != 1.0 && m.nu != -1.0
    ensures IsSquare(D, 3) && IsSymmetric(D) && Uncoupled(D)
    ensures D[0][0] == D[1][1] == PlaneStressFactor(m)
    ensures D[0][1] == m.nu * D[0][0]
    ensures D[2][2] == (1.0 + m.nu) * D[0][0]
  {
    var tmp := PlaneStressFactor(m);
    Constitutive(tmp, tmp * m.nu, tmp * (1.0 + m.nu))
  }

  /** As written, D22 = D00 (1 + nu) simplifies to E / (1 - nu). */
  lemma AsWrittenShear(m: Material)
    requires m.nu != 1.0 && m.nu != -1.0
    ensures PlaneStressMatrixAsWritten(m)[2][2] == m.E / (1.0 - m.nu)
  {
    var tmp := PlaneStressFactor(m);
    assert tmp * (1.0 - m.nu * m.nu) == m.E;
    assert (tmp * (1.0 + m.nu)) * (1.0 - m.nu) == tmp * (1.0 - m.nu * m.nu);
    Cancel(tmp * (1.0 + m.nu), m.E, 1.0 - m.nu);
  }

  /** The shear entry as written is the shear modulus only in the degenerate
      cases E = 0 or nu = -1/3; for steel (E = 200e9, nu = 0.28) it is
      2 (1 + nu) / (1 - nu), about 3.6, times too large. */
  lemma PlaneStressShearDiscrepancy(m: Material)
    requires -1.0 < m.nu < 1.0
    ensures PlaneStressMatrixAsWritten(m)[2][2] == ShearModulus(m)
            <==> (m.E == 0.0 || 3.0 * m.nu == -1.0)
  {
    AsWrittenShear(m);
    var a, g := m.E / (1.0 - m.nu), ShearModulus(m);
    var p, q := 1.0 - m.nu, 2.0 * (1.0 + m.nu);
    assert a * p == m.E;
    assert g * q == m.E;
    if a == g && m.E != 0.0 {
      assert a * p == a * q;
      assert a != 0.0;
      assert p == q;
    }
    if 3.0 * m.nu == -1.0 {
      assert p == q;
    }
    if m.E == 0.0 {
      assert a == 0.0 && g == 0.0;
    }
  }

  /** Plane stress with the textbook shear entry D22 = D00 (1 - nu) / 2,
      which is the shear modulus G: the same D22 as plane strain. */
  function PlaneStressMatrix(m: Material): (D: Matrix)
    requires m.nu != 1.0 && m.nu != -1.0
    ensures IsSquare(D, 3) && IsSymmetric(D) && Uncoupled(D)
    ensures D[0][0] == D[1][1] == PlaneStressFactor(m)
    ensures D[0][1] == m.nu * D[0][0]
    ensures D[2][2] == ShearModulus(m)
  {
    CorrectedShear(m);
    var tmp := PlaneStressFactor(m);
    Constitutive(tmp, tmp * m.nu, tmp * (1.0 - m.nu) / 2.0)
  }

  /** D00 (1 - nu) / 2 == E / (2 (1 + nu)). */
  lemma CorrectedShear(m: Material)
    requires m.nu != 1.0 && m.nu != -1.0
    ensures PlaneStressFactor(m) * (1.0 - m.nu) / 2.0 == ShearModulus(m)
  {
    var tmp := PlaneStressFactor(m);
    assert tmp * (1.0 - m.nu * m.nu) == m.E;
    var x := tmp * (1.0 - m.nu) / 2.0;
    assert x * (2.0 * (1.0 + m.nu)) == tmp * (1.0 - m.nu * m.nu);
    Cancel(x, m.E, 2.0 * (1.0 + m.nu));
  }

  /** For E > 0 and -1 < nu < 1 the corrected plane-stress matrix has a
      positive diagonal. */
  lemma PlaneStressPositiveDiagonal(m: Material)
    requires m.E > 0.0 && -1.0 < m.nu < 1.0
    ensures PlaneStressMatrix(m)[0][0] > 0.0 && PlaneStressMatrix(m)[2][2] > 0.0
  {
    var p := 1.0 - m.nu * m.nu;
    assert p == (1.0 - m.nu) * (1.0 + m.nu);
    assert p > 0.0;
    assert m.E / p > 0.0;
    assert 2.0 * (1.0 + m.nu) > 0.0;
  }

  /** The constitutive matrix an assembly uses, selected per call; only the
      selected one is computed, so only its divisions must be defined. */
  function ConstitutiveMatrix(m: Material, planeStress: bool): (D: Matrix)
    requires m.nu != -1.0 && (if planeStress then m.nu != 1.0 else m.nu != 0.5)
    ensures IsSquare(D, 3) && IsSymmetric(D) && Uncoupled(D)
    ensures D[2][2] == ShearModulus(m)
  {
    if planeStress then PlaneStressMatrix(m) else PlaneStrainMatrix(m)
  }
}

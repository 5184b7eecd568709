/** One Q4 element at a time: the Jacobian of the map from the reference
    square, the strain-displacement matrix B, and the 2 x 2 Gauss quadrature
    of the element stiffness matrix and of the element load vector. Each
    quadrature point whose Jacobian determinant is not positive aborts the
    computation with an error. */
module Elements {
  import opened Matrices
  import opened Shape

  datatype Result<T> = Ok(value: T) | Fail(message: string)

  const JacobianError: string := "Determinant of Jacobian is <= 0"

  /** Column c of the 4 x 2 table of an element's corner coordinates. */
  function Column(x: Matrix, c: nat): (v: seq<real>)
    requires IsMatrix(x, 4, 2) && c < 2
    ensures |v| == 4
  {
    [x[0][c], x[1][c], x[2][c], x[3][c]]
  }

  /** The product of the 2 x 4 gradient table and the 4 x 2 corner
      coordinates: entry (r, c) is the rate of change of coordinate c along
      reference direction r. */
  function Jacobian(dphi: Matrix, x: Matrix): (J: Matrix)
    requires IsMatrix(dphi, 2, 4) && IsMatrix(x, 4, 2)
    ensures IsSquare(J, 2)
  {
    [[Dot4(dphi[0], Column(x, 0)), Dot4(dphi[0], Column(x, 1))],
     [Dot4(dphi[1], Column(x, 0)), Dot4(dphi[1], Column(x, 1))]]
  }

  /** The determinant of a 2 x 2 matrix. */
  function Det2(J: Matrix): real
    requires IsSquare(J, 2)
  {
    J[0][0] * J[1][1] - J[0][1] * J[1][0]
  }

  /** J sends the vector (s, t) to zero. */
  ghost predicate Annihilates(J: Matrix, s: real, t: real)
    requires IsSquare(J, 2)
  {
    J[0][0] * s + J[0][1] * t == 0.0 && J[1][0] * s + J[1][1] * t == 0.0
  }

  /** The determinant vanishes exactly when J sends some non-zero vector to zero. */
  lemma Det2Singular(J: Matrix)
    requires IsSquare(J, 2)
    ensures Det2(J) == 0.0 <==> exists s: real, t: real :: (s != 0.0 || t != 0.0) && Annihilates(J, s, t)
  {
    var a, b, c, d := J[0][0], J[0][1], J[1][0], J[1][1];
    if Det2(J) == 0.0 {
      if c != 0.0 || d != 0.0 {
        assert Annihilates(J, d, -c);
      } else if a != 0.0 || b != 0.0 {
        assert Annihilates(J, b, -a);
      } else {
        assert Annihilates(J, 1.0, 0.0);
      }
    } else {
      forall s: real, t: real | Annihilates(J, s, t)
        ensures s == 0.0 && t == 0.0
      {
        assert (a * d - b * c) * s == d * (a * s + b * t) - b * (c * s + d * t);
        assert (a * d - b * c) * t == a * (c * s + d * t) - c * (a * s + b * t);
      }
    }
  }

  /** Coordinate c of the point (xi, eta) under the element's isoparametric map:
      the shape functions weight the corner coordinates. */
  function MapCoordinate(x: Matrix, xi: real, eta: real, c: nat): real
    requires IsMatrix(x, 4, 2) && c < 2
  {
    Dot4(Q4Shape(xi, eta), Column(x, c))
  }

  /** Weights that change by h g change a weighted sum by h times g's. */
  lemma Dot4Step(p: seq<real>, q: seq<real>, g: seq<real>, v: seq<real>, h: real)
    requires |p| == 4 && |q| == 4 && |g| == 4 && |v| == 4
    requires q[0] - p[0] == h * g[0] && q[1] - p[1] == h * g[1]
    requires q[2] - p[2] == h * g[2] && q[3] - p[3] == h * g[3]
    ensures Dot4(q, v) - Dot4(p, v) == h * Dot4(g, v)
  {
    forall k | 0 <= k < 4
      ensures q[k] * v[k] - p[k] * v[k] == h * (g[k] * v[k])
    {
      assert q[k] * v[k] - p[k] * v[k] == (q[k] - p[k]) * v[k];
    }
  }

  /** Row 0 of the Jacobian is the exact rate of change of the isoparametric
      map along xi: the map is affine in xi for fixed eta. */
  lemma JacobianXiDerivative(x: Matrix, xi: real, eta: real, h: real, c: nat)
    requires IsMatrix(x, 4, 2) && c < 2
    ensures MapCoordinate(x, xi + h, eta, c) - MapCoordinate(x, xi, eta, c) == h * Jacobian(Q4Gradient(xi, eta), x)[0][c]
  {
    XiDerivative(xi, eta, h, 0);
    XiDerivative(xi, eta, h, 1);
    XiDerivative(xi, eta, h, 2);
    XiDerivative(xi, eta, h, 3);
    Dot4Step(Q4Shape(xi, eta), Q4Shape(xi + h, eta), Q4Gradient(xi, eta)[0], Column(x, c), h);
  }

  /** Row 1 of the Jacobian is the exact rate of change of the isoparametric
      map along eta. */
  lemma JacobianEtaDerivative(x: Matrix, xi: real, eta: real, h: real, c: nat)
    requires IsMatrix(x, 4, 2) && c < 2
    ensures MapCoordinate(x, xi, eta + h, c) - MapCoordinate(x, xi, eta, c) == h * Jacobian(Q4Gradient(xi, eta), x)[1][c]
  {
    EtaDerivative(xi, eta, h, 0);
    EtaDerivative(xi, eta, h, 1);
    EtaDerivative(xi, eta, h, 2);
    EtaDerivative(xi, eta, h, 3);
    Dot4Step(Q4Shape(xi, eta), Q4Shape(xi, eta + h), Q4Gradient(xi, eta)[1], Column(x, c), h);
  }

  /** The corners are the image of the reference corners under the affine map
      (xi, eta) |-> (a0 xi + b0 eta + c0, a1 xi + b1 eta + c1). */
  ghost predicate AffineCorners(x: Matrix, a0: real, b0: real, c0: real, a1: real, b1: real, c1: real)
    requires IsMatrix(x, 4, 2)
  {
    Column(x, 0) == AffineNodal(a0, b0, c0) && Column(x, 1) == AffineNodal(a1, b1, c1)
  }

  /** The Jacobian of an affinely mapped element is that map's matrix, at every
      point of the reference square. */
  lemma AffineJacobian(x: Matrix, a0: real, b0: real, c0: real, a1: real, b1: real, c1: real, xi: real, eta: real)
    requires IsMatrix(x, 4, 2) && AffineCorners(x, a0, b0, c0, a1, b1, c1)
    ensures Jacobian(Q4Gradient(xi, eta), x) == [[a0, a1], [b0, b1]]
  {
    GradientReproduction(a0, b0, c0, xi, eta);
    GradientReproduction(a1, b1, c1, xi, eta);
  }

  /** Cramer's rule for the right-hand side (u, v): the two unknowns. */
  function CramerX(J: Matrix, u: real, v: real): real
    requires IsSquare(J, 2) && Det2(J) != 0.0
  {
    (J[1][1] * u - J[0][1] * v) / Det2(J)
  }

  function CramerY(J: Matrix, u: real, v: real): real
    requires IsSquare(J, 2) && Det2(J) != 0.0
  {
    (J[0][0] * v - J[1][0] * u) / Det2(J)
  }

  /** With a nonzero determinant, (CramerX, CramerY) solves the system with
      matrix J and right-hand side (u, v), and no other pair does. */
  lemma Cramer(J: Matrix, u: real, v: real, s: real, t: real)
    requires IsSquare(J, 2) && Det2(J) != 0.0
    ensures J[0][0] * s + J[0][1] * t == u && J[1][0] * s + J[1][1] * t == v
            <==> s == CramerX(J, u, v) && t == CramerY(J, u, v)
  {
    CramerSolves(J, u, v);
    if J[0][0] * s + J[0][1] * t == u && J[1][0] * s + J[1][1] * t == v {
      CramerUnique(J, u, v, s, t);
    }
  }

  lemma CramerSolves(J: Matrix, u: real, v: real)
    requires IsSquare(J, 2) && Det2(J) != 0.0
    ensures J[0][0] * CramerX(J, u, v) + J[0][1] * CramerY(J, u, v) == u
    ensures J[1][0] * CramerX(J, u, v) + J[1][1] * CramerY(J, u, v) == v
  {
    var a, b, c, e := J[0][0], J[0][1], J[1][0], J[1][1];
    var d := Det2(J);
    assert d == a * e - b * c;
    var s0, t0 := CramerX(J, u, v), CramerY(J, u, v);
    assert s0 * d == e * u - b * v by {
      Cancel(s0, e * u - b * v, d);
    }
    assert t0 * d == a * v - c * u by {
      Cancel(t0, a * v - c * u, d);
    }
    assert (a * s0 + b * t0) * d == u * d by {
      assert (a * s0 + b * t0) * d == a * (s0 * d) + b * (t0 * d);
    }
    assert (c * s0 + e * t0) * d == v * d by {
      assert (c * s0 + e * t0) * d == c * (s0 * d) + e * (t0 * d);
    }
  }

  lemma CramerUnique(J: Matrix, u: real, v: real, s: real, t: real)
    requires IsSquare(J, 2) && Det2(J) != 0.0
    requires J[0][0] * s + J[0][1] * t == u && J[1][0] * s + J[1][1] * t == v
    ensures s == CramerX(J, u, v) && t == CramerY(J, u, v)
  {
    var a, b, c, e := J[0][0], J[0][1], J[1][0], J[1][1];
    var d := Det2(J);
    assert d == a * e - b * c;
    assert s * d == e * u - b * v by {
      assert e * (a * s + b * t) - b * (c * s + e * t) == s * d;
    }
    assert t * d == a * v - c * u by {
      assert a * (c * s + e * t) - c * (a * s + b * t) == t * d;
    }
    Cancel(s, e * u - b * v, d);
    Cancel(t, a * v - c * u, d);
  }

  /** The solution of J y = rhs for a 2 x 4 right-hand side, column by
      column, by Cramer's rule. */
  function Solve2(J: Matrix, rhs: Matrix): (y: Matrix)
    requires IsSquare(J, 2) && IsMatrix(rhs, 2, 4) && Det2(J) != 0.0
    ensures IsMatrix(y, 2, 4)
    ensures forall k :: 0 <= k < 4 ==> y[0][k] == CramerX(J, rhs[0][k], rhs[1][k]) && y[1][k] == CramerY(J, rhs[0][k], rhs[1][k])
  {
    [seq(4, k requires 0 <= k < 4 => CramerX(J, rhs[0][k], rhs[1][k])),
     seq(4, k requires 0 <= k < 4 => CramerY(J, rhs[0][k], rhs[1][k]))]
  }

  /** J y == rhs, column by column. */
  ghost predicate Solves(J: Matrix, y: Matrix, rhs: Matrix)
    requires IsSquare(J, 2) && IsMatrix(y, 2, 4) && IsMatrix(rhs, 2, 4)
  {
    forall k :: 0 <= k < 4 ==>
      J[0][0] * y[0][k] + J[0][1] * y[1][k] == rhs[0][k] && J[1][0] * y[0][k] + J[1][1] * y[1][k] == rhs[1][k]
  }

  /** With a nonzero determinant, Solve2 returns the one and only solution. */
  lemma SolveCharacterised(J: Matrix, rhs: Matrix, y: Matrix)
    requires IsSquare(J, 2) && IsMatrix(rhs, 2, 4) && IsMatrix(y, 2, 4) && Det2(J) != 0.0
    ensures Solves(J, y, rhs) <==> y == Solve2(J, rhs)
  {
    var z := Solve2(J, rhs);
    forall k | 0 <= k < 4
      ensures J[0][0] * y[0][k] + J[0][1] * y[1][k] == rhs[0][k] && J[1][0] * y[0][k] + J[1][1] * y[1][k] == rhs[1][k]
              <==> y[0][k] == z[0][k] && y[1][k] == z[1][k]
    {
      Cramer(J, rhs[0][k], rhs[1][k], y[0][k], y[1][k]);
    }
    if forall k :: 0 <= k < 4 ==> y[0][k] == z[0][k] && y[1][k] == z[1][k] {
      assert y[0] == z[0] && y[1] == z[1];
    }
  }

  /** The 3 x 8 strain-displacement matrix of the gradients d with respect to
      x and y: row 0 holds d/dx at the x-displacements, row 1 d/dy at the
      y-displacements, row 2 both, swapped. */
  function BMatrix(d: Matrix): (B: Matrix)
    requires IsMatrix(d, 2, 4)
    ensures IsMatrix(B, 3, 8)
  {
    [[d[0][0], 0.0, d[0][1], 0.0, d[0][2], 0.0, d[0][3], 0.0],
     [0.0, d[1][0], 0.0, d[1][1], 0.0, d[1][2], 0.0, d[1][3]],
     [d[1][0], d[0][0], d[1][1], d[0][1], d[1][2], d[0][2], d[1][3], d[0][3]]]
  }

  /** The x- and the y-displacements of the element's nodal vector u. */
  function XParts(u: seq<real>): seq<real>
    requires |u| == 8
  {
    [u[0], u[2], u[4], u[6]]
  }

  function YParts(u: seq<real>): seq<real>
    requires |u| == 8
  {
    [u[1], u[3], u[5], u[7]]
  }

  function Dot8(r: seq<real>, u: seq<real>): real
    requires |r| == 8 && |u| == 8
  {
    r[0] * u[0] + r[1] * u[1] + r[2] * u[2] + r[3] * u[3] + r[4] * u[4] + r[5] * u[5] + r[6] * u[6] + r[7] * u[7]
  }

  /** B applied to nodal displacements u. */
  function Strain(B: Matrix, u: seq<real>): (e: seq<real>)
    requires IsMatrix(B, 3, 8) && |u| == 8
    ensures |e| == 3
  {
    [Dot8(B[0], u), Dot8(B[1], u), Dot8(B[2], u)]
  }

  /** B maps nodal displacements to the engineering strains of the
      interpolated field: (du_x/dx, du_y/dy, du_x/dy + du_y/dx). */
  lemma StrainOfDisplacements(d: Matrix, u: seq<real>)
    requires IsMatrix(d, 2, 4) && |u| == 8
    ensures Strain(BMatrix(d), u)
            == [Dot4(d[0], XParts(u)), Dot4(d[1], YParts(u)), Dot4(d[1], XParts(u)) + Dot4(d[0], YParts(u))]
  {
    var B := BMatrix(d);
    assert Dot8(B[0], u) == Dot4(d[0], XParts(u));
    assert Dot8(B[1], u) == Dot4(d[1], YParts(u));
    assert Dot8(B[2], u) == Dot4(d[1], XParts(u)) + Dot4(d[0], YParts(u));
  }

  /** When each gradient row sums to zero, as those of a partition of unity
      do, a rigid translation (tx, ty) of all four nodes has no strain. */
  lemma TranslationIsStrainFree(d: Matrix, tx: real, ty: real)
    requires IsMatrix(d, 2, 4) && Sum4(d[0]) == 0.0 && Sum4(d[1]) == 0.0
    ensures Strain(BMatrix(d), [tx, ty, tx, ty, tx, ty, tx, ty]) == [0.0, 0.0, 0.0]
  {
    var u := [tx, ty, tx, ty, tx, ty, tx, ty];
    StrainOfDisplacements(d, u);
    assert XParts(u) == [tx, tx, tx, tx] && YParts(u) == [ty, ty, ty, ty];
    assert Dot4(d[0], XParts(u)) == Sum4(d[0]) * tx;
    assert Dot4(d[1], YParts(u)) == Sum4(d[1]) * ty;
    assert Dot4(d[1], XParts(u)) == Sum4(d[1]) * tx;
    assert Dot4(d[0], YParts(u)) == Sum4(d[0]) * ty;
    var e := Strain(BMatrix(d), u);
    assert e[0] == 0.0 && e[1] == 0.0 && e[2] == 0.0;
  }

  /** The loop filling a zeroed 3 x 8 array with the gradients d, four
      entries per node. */
  method StrainDisplacement(d: Matrix) returns (B: array2<real>)
    requires IsMatrix(d, 2, 4)
    ensures fresh(B)
    ensures Snapshot(B) == BMatrix(d)
  {
    B := new real[3, 8]((r, c) => 0.0);
    for k := 0 to 4
      invariant B.Length0 == 3 && B.Length1 == 8
      invariant forall r, c :: 0 <= r < 3 && 0 <= c < 8 ==> B[r, c] == if c < 2 * k then BMatrix(d)[r][c] else 0.0
    {
      B[0, 2 * k] := d[0][k];
      B[2, 2 * k + 1] := d[0][k];
      B[1, 2 * k + 1] := d[1][k];
      B[2, 2 * k] := d[1][k];
    }
    SnapshotIs(B, BMatrix(d));
  }

  /** Entry (i, j) of B^T D B. */
  function CongruenceEntry(B: Matrix, D: Matrix, i: nat, j: nat): real
    requires IsMatrix(B, 3, 8) && IsSquare(D, 3) && i < 8 && j < 8
  {
    (B[0][i] * D[0][0] + B[1][i] * D[1][0] + B[2][i] * D[2][0]) * B[0][j]
    + (B[0][i] * D[0][1] + B[1][i] * D[1][1] + B[2][i] * D[2][1]) * B[1][j]
    + (B[0][i] * D[0][2] + B[1][i] * D[1][2] + B[2][i] * D[2][2]) * B[2][j]
  }

  /** The 8 x 8 matrix B^T D B. */
  function Congruence(B: Matrix, D: Matrix): (K: Matrix)
    requires IsMatrix(B, 3, 8) && IsSquare(D, 3)
    ensures IsSquare(K, 8)
    ensures forall i, j :: 0 <= i < 8 && 0 <= j < 8 ==> K[i][j] == CongruenceEntry(B, D, i, j)
  {
    seq(8, i requires 0 <= i < 8 => seq(8, j requires 0 <= j < 8 => CongruenceEntry(B, D, i, j)))
  }

  /** B^T D B is symmetric whenever D is. */
  lemma CongruenceSymmetric(B: Matrix, D: Matrix)
    requires IsMatrix(B, 3, 8) && IsSquare(D, 3) && IsSymmetric(D)
    ensures IsSymmetric(Congruence(B, D))
  {
    var K := Congruence(B, D);
    forall i, j | 0 <= i < 8 && 0 <= j < 8
      ensures K[i][j] == K[j][i]
    {
      BilinearSymmetric(B[0][i], B[1][i], B[2][i], B[0][j], B[1][j], B[2][j], D);
    }
  }

  /** p^T D q == q^T D p for a symmetric 3 x 3 matrix D. */
  lemma BilinearSymmetric(p0: real, p1: real, p2: real, q0: real, q1: real, q2: real, D: Matrix)
    requires IsSquare(D, 3) && IsSymmetric(D)
    ensures (p0 * D[0][0] + p1 * D[1][0] + p2 * D[2][0]) * q0
            + (p0 * D[0][1] + p1 * D[1][1] + p2 * D[2][1]) * q1
            + (p0 * D[0][2] + p1 * D[1][2] + p2 * D[2][2]) * q2
         == (q0 * D[0][0] + q1 * D[1][0] + q2 * D[2][0]) * p0
            + (q0 * D[0][1] + q1 * D[1][1] + q2 * D[2][1]) * p1
            + (q0 * D[0][2] + q1 * D[1][2] + q2 * D[2][2]) * p2
  {
    assert D[0][1] == D[1][0] && D[0][2] == D[2][0] && D[1][2] == D[2][1];
  }

  /** Quadrature point q: its reference coordinates, weight and gradient table. */
  function PointGradient(q: nat): (dphi: Matrix)
    requires q < 4
    ensures IsMatrix(dphi, 2, 4)
  {
    Q4Gradient(GaussPoints()[q].0, GaussPoints()[q].1)
  }

  function PointJacobian(x: Matrix, q: nat): (J: Matrix)
    requires IsMatrix(x, 4, 2) && q < 4
    ensures IsSquare(J, 2)
  {
    Jacobian(PointGradient(q), x)
  }

  function PointDet(x: Matrix, q: nat): real
    requires IsMatrix(x, 4, 2) && q < 4
  {
    Det2(PointJacobian(x, q))
  }

  /** The contribution w (B^T D B) det of quadrature point q, where B holds
      the gradients with respect to x and y. */
  function PointStiffness(x: Matrix, D: Matrix, q: nat): (K: Matrix)
    requires IsMatrix(x, 4, 2) && IsSquare(D, 3) && q < 4 && PointDet(x, q) != 0.0
    ensures IsSquare(K, 8)
  {
    var B := BMatrix(Solve2(PointJacobian(x, q), PointGradient(q)));
    Scaled(GaussWeights()[q] * PointDet(x, q), Congruence(B, D))
  }

  /** The element stiffness after the first q quadrature points, or the error
      of the first point whose determinant is not positive. */
  function ElementStiffnessUpTo(x: Matrix, D: Matrix, q: nat): (r: Result<Matrix>)
    requires IsMatrix(x, 4, 2) && IsSquare(D, 3) && q <= 4
    ensures r.Ok? ==> IsSquare(r.value, 8)
    ensures r.Fail? ==> r.message == JacobianError
  {
    if q == 0 then Ok(Zeros(8, 8))
    else match ElementStiffnessUpTo(x, D, q - 1)
      case Fail(msg) => Fail(msg)
      case Ok(K) =>
        if PointDet(x, q - 1) <= 0.0 then Fail(JacobianError)
        else Ok(Plus(K, PointStiffness(x, D, q - 1)))
  }

  /** Some quadrature point has a non-positive determinant. */
  ghost predicate Degenerate(x: Matrix, q: nat)
    requires IsMatrix(x, 4, 2) && q <= 4
  {
    exists p :: 0 <= p < q && PointDet(x, p) <= 0.0
  }

  /** The element stiffness fails exactly when some quadrature point is
      degenerate; otherwise it is an 8 x 8 matrix, symmetric when D is. */
  lemma {:induction false} ElementStiffnessOutcome(x: Matrix, D: Matrix, q: nat)
    requires IsMatrix(x, 4, 2) && IsSquare(D, 3) && q <= 4
    ensures ElementStiffnessUpTo(x, D, q).Fail? <==> Degenerate(x, q)
    ensures ElementStiffnessUpTo(x, D, q).Ok? && IsSymmetric(D) ==> IsSymmetric(ElementStiffnessUpTo(x, D, q).value)
  {
    if q > 0 {
      ElementStiffnessOutcome(x, D, q - 1);
      if IsSymmetric(D) && PointDet(x, q - 1) > 0.0 {
        CongruenceSymmetric(BMatrix(Solve2(PointJacobian(x, q - 1), PointGradient(q - 1))), D);
      }
      if Degenerate(x, q - 1) {
        var p :| 0 <= p < q - 1 && PointDet(x, p) <= 0.0;
        assert 0 <= p < q;
      }
    }
  }

  /** The quadrature loop of the stiffness assembly for one element with
      corner coordinates x. */
  method ElementStiffness(x: Matrix, D: Matrix) returns (r: Result<Matrix>)
    requires IsMatrix(x, 4, 2) && IsSquare(D, 3)
    ensures r == ElementStiffnessUpTo(x, D, 4)
  {
    var K := Zeros(8, 8);
    for q := 0 to 4
      invariant ElementStiffnessUpTo(x, D, q) == Ok(K)
    {
      var det, Kq := QuadraturePointStiffness(x, D, q);
      if det <= 0.0 {
        ElementStiffnessOutcome(x, D, 4);
        return Fail(JacobianError);
      }
      StiffnessStep(x, D, q, K);
      K := Plus(K, Kq);
    }
    r := Ok(K);
  }

  /** The body of the quadrature loop at point q: the determinant and, when
      it is positive, the point's contribution w (B^T D B) det. */
  method QuadraturePointStiffness(x: Matrix, D: Matrix, q: nat) returns (det: real, Kq: Matrix)
    requires IsMatrix(x, 4, 2) && IsSquare(D, 3) && q < 4
    ensures det == PointDet(x, q)
    ensures det > 0.0 ==> Kq == PointStiffness(x, D, q)
  {
    var (xi, eta) := GaussPoints()[q];
    var w := GaussWeights()[q];
    var dphi := Q4Gradient(xi, eta);
    var jac := Jacobian(dphi, x);
    det := Det2(jac);
    if det <= 0.0 {
      return det, [];
    }
    var dphiDx := Solve2(jac, dphi);
    var B := StrainDisplacement(dphiDx);
    Kq := Scaled(w * det, Congruence(Snapshot(B), D));
  }

  /** A quadrature point with a positive determinant adds its contribution. */
  lemma StiffnessStep(x: Matrix, D: Matrix, q: nat, K: Matrix)
    requires IsMatrix(x, 4, 2) && IsSquare(D, 3) && q < 4
    requires ElementStiffnessUpTo(x, D, q) == Ok(K) && PointDet(x, q) > 0.0
    ensures ElementStiffnessUpTo(x, D, q + 1) == Ok(Plus(K, PointStiffness(x, D, q)))
  {
  }

  /** The load of quadrature point q under the body force b: w phi_k b.0 det
      at the x-displacement of corner k and w phi_k b.1 det at its
      y-displacement. */
  function PointLoad(x: Matrix, b: (real, real), q: nat): (f: seq<real>)
    requires IsMatrix(x, 4, 2) && q < 4
    ensures |f| == 8
  {
    LoadShares(GaussWeights()[q], Q4Shape(GaussPoints()[q].0, GaussPoints()[q].1), b, PointDet(x, q))
  }

  /** w phi b.0 det at the x-displacements and w phi b.1 det at the
      y-displacements, corner by corner. */
  function LoadShares(w: real, phi: seq<real>, b: (real, real), det: real): (f: seq<real>)
    requires |phi| == 4
    ensures |f| == 8
  {
    [w * phi[0] * b.0 * det, w * phi[0] * b.1 * det, w * phi[1] * b.0 * det, w * phi[1] * b.1 * det,
     w * phi[2] * b.0 * det, w * phi[2] * b.1 * det, w * phi[3] * b.0 * det, w * phi[3] * b.1 * det]
  }

  /** The share w phi c det of one load component c at one corner. */
  function Share(w: real, phi: real, c: real, det: real): (s: real)
    ensures c == 0.0 ==> s == 0.0
  {
    w * phi * c * det
  }

  /** Corner k receives phi_k's share of each load component. */
  lemma LoadShareAt(w: real, phi: seq<real>, b: (real, real), det: real, k: nat)
    requires |phi| == 4 && k < 4
    ensures LoadShares(w, phi, b, det)[2 * k] == Share(w, phi[k], b.0, det)
    ensures LoadShares(w, phi, b, det)[2 * k + 1] == Share(w, phi[k], b.1, det)
  {
    var f := LoadShares(w, phi, b, det);
    if k == 0 {
      assert f[0] == w * phi[0] * b.0 * det && f[1] == w * phi[0] * b.1 * det;
    } else if k == 1 {
      assert f[2] == w * phi[1] * b.0 * det && f[3] == w * phi[1] * b.1 * det;
    } else if k == 2 {
      assert f[4] == w * phi[2] * b.0 * det && f[5] == w * phi[2] * b.1 * det;
    } else {
      assert f[6] == w * phi[3] * b.0 * det && f[7] == w * phi[3] * b.1 * det;
    }
  }

  /** The element load vector after the first q quadrature points, or the
      error of the first point whose determinant is not positive. */
  function ElementLoadUpTo(x: Matrix, b: (real, real), q: nat): (r: Result<seq<real>>)
    requires IsMatrix(x, 4, 2) && q <= 4
    ensures r.Ok? ==> |r.value| == 8
    ensures r.Fail? ==> r.message == JacobianError
  {
    if q == 0 then Ok(ZeroVector(8))
    else match ElementLoadUpTo(x, b, q - 1)
      case Fail(msg) => Fail(msg)
      case Ok(f) =>
        if PointDet(x, q - 1) <= 0.0 then Fail(JacobianError)
        else Ok(VectorPlus(f, PointLoad(x, b, q - 1)))
  }

  /** The load integration fails exactly when the stiffness integration of
      the same element does: at a degenerate quadrature point. */
  lemma {:induction false} ElementLoadOutcome(x: Matrix, b: (real, real), q: nat)
    requires IsMatrix(x, 4, 2) && q <= 4
    ensures ElementLoadUpTo(x, b, q).Fail? <==> Degenerate(x, q)
  {
    if q > 0 {
      ElementLoadOutcome(x, b, q - 1);
      if Degenerate(x, q - 1) {
        var p :| 0 <= p < q - 1 && PointDet(x, p) <= 0.0;
        assert 0 <= p < q;
      }
    }
  }

  /** The x- and the y-loads of a point add up to the body force times w det,
      because the shape functions sum to one. */
  lemma PointLoadTotals(x: Matrix, b: (real, real), q: nat)
    requires IsMatrix(x, 4, 2) && q < 4
    ensures Sum4(XParts(PointLoad(x, b, q))) == b.0 * (GaussWeights()[q] * PointDet(x, q))
    ensures Sum4(YParts(PointLoad(x, b, q))) == b.1 * (GaussWeights()[q] * PointDet(x, q))
  {
    var w, phi, det := GaussWeights()[q], Q4Shape(GaussPoints()[q].0, GaussPoints()[q].1), PointDet(x, q);
    assert Sum4(phi) == 1.0;
    ForceShares(w, phi[0], phi[1], phi[2], phi[3], b.0, det);
    ForceShares(w, phi[0], phi[1], phi[2], phi[3], b.1, det);
  }

  /** Four shares w p_k g det of a force g, with p_0 + ... + p_3 == 1, add up to g w det. */
  lemma ForceShares(w: real, p0: real, p1: real, p2: real, p3: real, g: real, det: real)
    requires p0 + p1 + p2 + p3 == 1.0
    ensures w * p0 * g * det + w * p1 * g * det + w * p2 * g * det + w * p3 * g * det == g * (w * det)
  {
    var c := w * g * det;
    assert w * p0 * g * det + w * p1 * g * det + w * p2 * g * det + w * p3 * g * det == c * (p0 + p1 + p2 + p3);
  }

  /** The quadrature loop of the load assembly for one element. */
  method ElementLoad(x: Matrix, b: (real, real)) returns (r: Result<seq<real>>)
    requires IsMatrix(x, 4, 2)
    ensures r == ElementLoadUpTo(x, b, 4)
  {
    var f := ZeroVector(8);
    for q := 0 to 4
      invariant ElementLoadUpTo(x, b, q) == Ok(f)
    {
      var det, fq := QuadraturePointLoad(x, b, q);
      if det <= 0.0 {
        ElementLoadOutcome(x, b, 4);
        return Fail(JacobianError);
      }
      f := VectorPlus(f, fq);
    }
    r := Ok(f);
  }

  /** The body of the load quadrature loop at point q. */
  method QuadraturePointLoad(x: Matrix, b: (real, real), q: nat) returns (det: real, fq: seq<real>)
    requires IsMatrix(x, 4, 2) && q < 4
    ensures det == PointDet(x, q)
    ensures det > 0.0 ==> fq == PointLoad(x, b, q)
  {
    var (xi, eta) := GaussPoints()[q];
    var w := GaussWeights()[q];
    var dphi := Q4Gradient(xi, eta);
    var phi := Q4Shape(xi, eta);
    var jac := Jacobian(dphi, x);
    det := Det2(jac);
    if det <= 0.0 {
      return det, [];
    }
    fq := LoadShares(w, phi, b, det);
  }
}

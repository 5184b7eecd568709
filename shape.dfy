/** Bilinear four-node quadrilateral (Q4) shape functions on the reference
    square [-1,1] x [-1,1], their gradients, and the 2 x 2 Gauss rule. */
module Shape {

  /** The Gauss coordinate exactly as the source writes it: a decimal
      approximation of 1/sqrt(3). Nothing below depends on its square. */
  const GaussCoord: real := 0.5773502691896257

  /** Reference corner k of the element, counterclockwise from (-1,-1). */
  function RefCorner(k: nat): (c: (real, real))
    requires k < 4
    ensures (c.0 == 1.0 || c.0 == -1.0) && (c.1 == 1.0 || c.1 == -1.0)
  {
    [(-1.0, -1.0), (1.0, -1.0), (1.0, 1.0), (-1.0, 1.0)][k]
  }

  /** The four quadrature points, in the corners' counterclockwise order. */
  function GaussPoints(): (pts: seq<(real, real)>)
    ensures |pts| == 4
    ensures forall q :: 0 <= q < 4 ==>
              pts[q].0 == GaussCoord * RefCorner(q).0 && pts[q].1 == GaussCoord * RefCorner(q).1
  {
    [(-GaussCoord, -GaussCoord), (GaussCoord, -GaussCoord),
     (GaussCoord, GaussCoord), (-GaussCoord, GaussCoord)]
  }

  /** The four quadrature weights. */
  function GaussWeights(): (w: seq<real>)
    ensures |w| == 4
    ensures forall q :: 0 <= q < 4 ==> w[q] == 1.0
    ensures w[0] + w[1] + w[2] + w[3] == 4.0
  {
    [1.0, 1.0, 1.0, 1.0]
  }

  function Sum4(u: seq<real>): real
    requires |u| == 4
  {
    u[0] + u[1] + u[2] + u[3]
  }

  function Dot4(u: seq<real>, v: seq<real>): real
    requires |u| == 4 && |v| == 4
  {
    u[0] * v[0] + u[1] * v[1] + u[2] * v[2] + u[3] * v[3]
  }

  /** Shape function values phi_k(xi, eta); they form a partition of unity. */
  function Q4Shape(xi: real, eta: real): (phi: seq<real>)
    ensures |phi| == 4
    ensures Sum4(phi) == 1.0
  {
    [0.25 * (1.0 - xi) * (1.0 - eta),
     0.25 * (1.0 + xi) * (1.0 - eta),
     0.25 * (1.0 + xi) * (1.0 + eta),
     0.25 * (1.0 - xi) * (1.0 + eta)]
  }

  /** The 2 x 4 gradient table: row 0 holds d/dxi, row 1 holds d/deta.
      Each row sums to zero, as the gradients of a partition of unity must. */
  function Q4Gradient(xi: real, eta: real): (dphi: seq<seq<real>>)
    ensures |dphi| == 2 && |dphi[0]| == 4 && |dphi[1]| == 4
    ensures Sum4(dphi[0]) == 0.0 && Sum4(dphi[1]) == 0.0
  {
    [[-0.25 * (1.0 - eta), 0.25 * (1.0 - eta), 0.25 * (1.0 + eta), -0.25 * (1.0 + eta)],
     [-0.25 * (1.0 - xi), -0.25 * (1.0 + xi), 0.25 * (1.0 + xi), 0.25 * (1.0 - xi)]]
  }

  /** Kronecker property: phi_k is 1 at its own corner and 0 at the others. */
  lemma ShapeKronecker(k: nat, l: nat)
    requires k < 4 && l < 4
    ensures Q4Shape(RefCorner(l).0, RefCorner(l).1)[k] == if k == l then 1.0 else 0.0
  {
  }

  /** The Gauss rule integrates every shape function exactly: the weighted
      values of phi_k at the four points sum to 1, the integral of phi_k
      over the reference square. */
  lemma ShapeQuadrature(k: nat)
    requires k < 4
    ensures GaussWeights()[0] * Q4Shape(GaussPoints()[0].0, GaussPoints()[0].1)[k]
          + GaussWeights()[1] * Q4Shape(GaussPoints()[1].0, GaussPoints()[1].1)[k]
          + GaussWeights()[2] * Q4Shape(GaussPoints()[2].0, GaussPoints()[2].1)[k]
          + GaussWeights()[3] * Q4Shape(GaussPoints()[3].0, GaussPoints()[3].1)[k] == 1.0
  {
  }

  /** Nodal values of the affine field a*x + b*y + c at the reference corners. */
  function AffineNodal(a: real, b: real, c: real): (u: seq<real>)
    ensures |u| == 4
    ensures forall k :: 0 <= k < 4 ==> u[k] == a * RefCorner(k).0 + b * RefCorner(k).1 + c
  {
    seq(4, k requires 0 <= k < 4 => a * RefCorner(k).0 + b * RefCorner(k).1 + c)
  }

  /** Interpolating the corner values of an affine field reproduces it exactly. */
  lemma AffineReproduction(a: real, b: real, c: real, xi: real, eta: real)
    ensures Dot4(Q4Shape(xi, eta), AffineNodal(a, b, c)) == a * xi + b * eta + c
  {
  }

  /** The interpolated gradient of an affine field is its exact gradient (a, b). */
  lemma GradientReproduction(a: real, b: real, c: real, xi: real, eta: real)
    ensures Dot4(Q4Gradient(xi, eta)[0], AffineNodal(a, b, c)) == a
    ensures Dot4(Q4Gradient(xi, eta)[1], AffineNodal(a, b, c)) == b
  {
  }

  /** c * (1 + s * x) * t is affine in x with slope c * s * t. */
  lemma AffineStep(c: real, s: real, t: real, x: real, h: real)
    ensures c * (1.0 + s * (x + h)) * t - c * (1.0 + s * x) * t == h * (c * s * t)
  {
  }

  /** Row 0 of the gradient table holds the exact partial derivatives in xi:
      each phi_k is affine in xi for fixed eta, so its difference quotients
      are exact. */
  lemma XiDerivative(xi: real, eta: real, h: real, k: nat)
    requires k < 4
    ensures Q4Shape(xi + h, eta)[k] - Q4Shape(xi, eta)[k] == h * Q4Gradient(xi, eta)[0][k]
  {
    if k == 0 {
      AffineStep(0.25, -1.0, 1.0 - eta, xi, h);
    } else if k == 1 {
      AffineStep(0.25, 1.0, 1.0 - eta, xi, h);
    } else if k == 2 {
      AffineStep(0.25, 1.0, 1.0 + eta, xi, h);
    } else {
      AffineStep(0.25, -1.0, 1.0 + eta, xi, h);
    }
  }

  /** Row 1 of the gradient table holds the exact partial derivatives in eta. */
  lemma EtaDerivative(xi: real, eta: real, h: real, k: nat)
    requires k < 4
    ensures Q4Shape(xi, eta + h)[k] - Q4Shape(xi, eta)[k] == h * Q4Gradient(xi, eta)[1][k]
  {
    if k == 0 {
      AffineStep(0.25, -1.0, 1.0 - xi, eta, h);
    } else if k == 1 {
      AffineStep(0.25, -1.0, 1.0 + xi, eta, h);
    } else if k == 2 {
      AffineStep(0.25, 1.0, 1.0 + xi, eta, h);
    } else {
      AffineStep(0.25, 1.0, 1.0 - xi, eta, h);
    }
  }
}

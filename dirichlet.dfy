/** Dirichlet boundary conditions: the choice of the constrained degrees of
    freedom among the boundary nodes, and their enforcement on the assembled
    system K u = f by elimination in place. */
module Dirichlet {
  import opened Matrices
  import opened Sums
  import opened Dofs
  import opened Meshes

  /* ---------- Classification of the boundary nodes ---------- */

  /** The nodes are rows of the coordinate table X. */
  ghost predicate NodesOf(X: Matrix, nodes: seq<int>)
  {
    IsMatrix(X, |X|, 2) && forall k :: 0 <= k < |nodes| ==> 0 <= nodes[k] < |X|
  }

  /** Degree of freedom comp of every node, in the order of `nodes`, whose
      coordinate `axis` equals `value`. */
  function Select(X: Matrix, nodes: seq<int>, axis: nat, value: real, comp: nat): seq<int>
    requires NodesOf(X, nodes) && axis < 2 && comp < 2
  {
    if nodes == [] then []
    else
      var i := nodes[|nodes| - 1];
      Select(X, nodes[..|nodes| - 1], axis, value, comp) + (if X[i][axis] == value then [Dof(i, comp)] else [])
  }

  /** A degree of freedom is selected exactly when it is component comp of one
      of the nodes whose coordinate `axis` equals `value`. */
  lemma {:induction false} SelectMembership(X: Matrix, nodes: seq<int>, axis: nat, value: real, comp: nat, d: int)
    requires NodesOf(X, nodes) && axis < 2 && comp < 2
    ensures d in Select(X, nodes, axis, value, comp)
            <==> d % 2 == comp && d / 2 in nodes && X[d / 2][axis] == value
  {
    if nodes != [] {
      var n := |nodes| - 1;
      var i := nodes[n];
      SelectMembership(X, nodes[..n], axis, value, comp, d);
      assert nodes == nodes[..n] + [i];
      DofRoundTrip(i, comp);
      if d % 2 == comp && d / 2 == i {
        assert d == Dof(i, comp);
      }
    }
  }

  /** Increasing nodes give increasing degrees of freedom. */
  lemma {:induction false} SelectIncreasing(X: Matrix, nodes: seq<int>, axis: nat, value: real, comp: nat)
    requires NodesOf(X, nodes) && axis < 2 && comp < 2 && StrictlyIncreasing(nodes)
    ensures StrictlyIncreasing(Select(X, nodes, axis, value, comp))
  {
    if nodes != [] {
      var n := |nodes| - 1;
      var i := nodes[n];
      var prefix := Select(X, nodes[..n], axis, value, comp);
      SelectIncreasing(X, nodes[..n], axis, value, comp);
      forall k | 0 <= k < |prefix|
        ensures prefix[k] < Dof(i, comp)
      {
        SelectMembership(X, nodes[..n], axis, value, comp, prefix[k]);
        var t :| 0 <= t < n && nodes[..n][t] == prefix[k] / 2;
        assert prefix[k] / 2 < i;
      }
    }
  }

  /** x-displacements of the nodes on x = 0 (the left edge). */
  function LeftDofs(X: Matrix, nodes: seq<int>): seq<int>
    requires NodesOf(X, nodes)
  {
    Select(X, nodes, 0, 0.0, 0)
  }

  /** y-displacements of the nodes on y = 0 (the bottom edge). */
  function BottomDofs(X: Matrix, nodes: seq<int>): seq<int>
    requires NodesOf(X, nodes)
  {
    Select(X, nodes, 1, 0.0, 1)
  }

  /** y-displacements of the nodes on y = H (the top edge). */
  function TopDofs(X: Matrix, nodes: seq<int>, H: real): seq<int>
    requires NodesOf(X, nodes)
  {
    Select(X, nodes, 1, H, 1)
  }

  /** A corner node on x = 0 and y = 0 is constrained in both directions, while
      the bottom and top edges share no degree of freedom when H is not 0. */
  lemma ClassificationOverlap(X: Matrix, nodes: seq<int>, H: real, i: int)
    requires NodesOf(X, nodes) && i in nodes
    ensures X[i][0] == 0.0 && X[i][1] == 0.0 ==> Dof(i, 0) in LeftDofs(X, nodes) && Dof(i, 1) in BottomDofs(X, nodes)
    ensures H != 0.0 ==> Dof(i, 1) !in BottomDofs(X, nodes) || Dof(i, 1) !in TopDofs(X, nodes, H)
  {
    DofRoundTrip(i, 0);
    DofRoundTrip(i, 1);
    SelectMembership(X, nodes, 0, 0.0, 0, Dof(i, 0));
    SelectMembership(X, nodes, 1, 0.0, 1, Dof(i, 1));
    SelectMembership(X, nodes, 1, H, 1, Dof(i, 1));
  }

  /** The classification loop over the boundary nodes: x = 0 constrains the
      x-displacement, y = 0 and y = H the y-displacement. Exact equality of
      coordinates stands in for a tolerance test. */
  method Classify(mesh: Mesh, nodes: seq<int>, H: real) returns (left: seq<int>, bottom: seq<int>, top: seq<int>)
    requires mesh.coordinates.Length1 == 2
    requires forall k :: 0 <= k < |nodes| ==> 0 <= nodes[k] < mesh.NNodes()
    ensures NodesOf(mesh.Coordinates(), nodes)
    ensures left == LeftDofs(mesh.Coordinates(), nodes)
    ensures bottom == BottomDofs(mesh.Coordinates(), nodes)
    ensures top == TopDofs(mesh.Coordinates(), nodes, H)
  {
    ghost var X := mesh.Coordinates();
    left, bottom, top := [], [], [];
    for k := 0 to |nodes|
      invariant left == Select(X, nodes[..k], 0, 0.0, 0)
      invariant bottom == Select(X, nodes[..k], 1, 0.0, 1)
      invariant top == Select(X, nodes[..k], 1, H, 1)
    {
      var i := nodes[k];
      assert nodes[..k + 1][..k] == nodes[..k];
      if mesh.coordinates[i, 0] == 0.0 {
        left := left + [2 * i];
      }
      if mesh.coordinates[i, 1] == 0.0 {
        bottom := bottom + [2 * i + 1];
      }
      if mesh.coordinates[i, 1] == H {
        top := top + [2 * i + 1];
      }
    }
    assert nodes[..|nodes|] == nodes;
  }

  /* ---------- Enforcement ---------- */

  /** K after row and column dof have been zeroed and the diagonal set to 1. */
  function EnforcedK(K: Matrix, dof: nat): (R: Matrix)
    requires IsSquare(K, |K|) && dof < |K|
    ensures IsSquare(R, |K|)
  {
    seq(|K|, i requires 0 <= i < |K| =>
      seq(|K|, j requires 0 <= j < |K| =>
        if i == dof && j == dof then 1.0 else if i == dof || j == dof then 0.0 else K[i][j]))
  }

  /** f after v times row dof of K (as it stood before zeroing) has been
      subtracted and then f[dof] set to v. */
  function EnforcedF(K: Matrix, f: seq<real>, dof: nat, v: real): (g: seq<real>)
    requires IsSquare(K, |f|) && dof < |f|
    ensures |g| == |f|
  {
    seq(|f|, i requires 0 <= i < |f| => if i == dof then v else f[i] - v * K[dof][i])
  }

  /** Degree of freedom dof of the system (K, f) is constrained to v: its
      equation reads u[dof] = v and no other equation involves u[dof]. */
  ghost predicate Constrained(K: Matrix, f: seq<real>, dof: nat, v: real)
    requires IsSquare(K, |f|)
  {
    && dof < |f|
    && f[dof] == v
    && K[dof][dof] == 1.0
    && forall j :: 0 <= j < |f| && j != dof ==> K[dof][j] == 0.0 && K[j][dof] == 0.0
  }

  /** Enforcement constrains its degree of freedom, and changes nothing
      outside row and column dof of K, nor any f[i] but by v K[dof][i]. */
  lemma EnforceConstrains(K: Matrix, f: seq<real>, dof: nat, v: real)
    requires IsSquare(K, |f|) && dof < |f|
    ensures Constrained(EnforcedK(K, dof), EnforcedF(K, f, dof, v), dof, v)
    ensures forall i, j :: 0 <= i < |f| && 0 <= j < |f| && i != dof && j != dof ==> EnforcedK(K, dof)[i][j] == K[i][j]
    ensures forall i :: 0 <= i < |f| && i != dof ==> EnforcedF(K, f, dof, v)[i] == f[i] - v * K[dof][i]
  {
  }

  /** Enforcement keeps K symmetric. */
  lemma EnforceKeepsSymmetry(K: Matrix, dof: nat)
    requires IsSymmetric(K) && dof < |K|
    ensures IsSymmetric(EnforcedK(K, dof))
  {
  }

  /** Enforcing another degree of freedom leaves an earlier constraint intact:
      its column entry in the row being subtracted is already 0. */
  lemma EnforceKeepsEarlier(K: Matrix, f: seq<real>, d: nat, v: real, dof: nat, w: real)
    requires IsSquare(K, |f|) && dof < |f| && d != dof
    requires Constrained(K, f, d, v)
    ensures Constrained(EnforcedK(K, dof), EnforcedF(K, f, dof, w), d, v)
  {
    assert EnforcedF(K, f, dof, w)[d] == f[d] - w * K[dof][d];
  }

  /** Re-enforcing a constraint that already holds changes nothing. */
  lemma EnforceIdempotent(K: Matrix, f: seq<real>, dof: nat, v: real)
    requires IsSquare(K, |f|) && Constrained(K, f, dof, v)
    ensures EnforcedK(K, dof) == K
    ensures EnforcedF(K, f, dof, v) == f
  {
    var R := EnforcedK(K, dof);
    forall i | 0 <= i < |f|
      ensures R[i] == K[i]
    {
    }
    var g := EnforcedF(K, f, dof, v);
    forall i | 0 <= i < |f|
      ensures g[i] == f[i]
    {
      if i != dof {
        assert K[dof][i] == 0.0;
      }
    }
  }

  /* ---------- What the enforced system means ---------- */

  /** The terms row[j] u[j] of a row times a vector. */
  function Products(row: seq<real>, u: seq<real>): nat -> real
  {
    (j: nat) => if j < |row| && j < |u| then row[j] * u[j] else 0.0
  }

  /** The product K u. */
  function MatVec(K: Matrix, u: seq<real>): (w: seq<real>)
    requires IsSquare(K, |u|)
    ensures |w| == |u|
  {
    seq(|u|, i requires 0 <= i < |u| => Sum(|u|, Products(K[i], u)))
  }

  /** Every solution of a system in which dof is constrained to v has u[dof] == v. */
  lemma ConstrainedSolution(K: Matrix, f: seq<real>, dof: nat, v: real, u: seq<real>)
    requires IsSquare(K, |f|) && |u| == |f| && Constrained(K, f, dof, v)
    requires MatVec(K, u) == f
    ensures u[dof] == v
  {
    forall j: nat | j < |u| && j != dof
      ensures Products(K[dof], u)(j) == 0.0
    {
    }
    SumOfSingle(|u|, Products(K[dof], u), dof);
    assert MatVec(K, u)[dof] == Sum(|u|, Products(K[dof], u));
  }

  /** The term c at position dof and zero elsewhere. */
  function Spike(dof: nat, c: real): nat -> real
  {
    (j: nat) => if j == dof then c else 0.0
  }

  /** For a symmetric K, enforcement keeps every other equation's residual at
      any u with u[dof] == v: subtracting v times row dof from f makes up for
      the zeroed column. */
  lemma EnforcePreservesResidual(K: Matrix, f: seq<real>, dof: nat, v: real, u: seq<real>, i: nat)
    requires IsSymmetric(K) && |K| == |f| == |u| && dof < |f| && u[dof] == v
    requires i < |f| && i != dof
    ensures MatVec(EnforcedK(K, dof), u)[i] - EnforcedF(K, f, dof, v)[i] == MatVec(K, u)[i] - f[i]
  {
    var R := EnforcedK(K, dof);
    var n := |u|;
    forall j: nat | j < n
      ensures Products(K[i], u)(j) == Products(R[i], u)(j) + Spike(dof, K[i][dof] * v)(j)
    {
    }
    SumOfAdded(n, Products(R[i], u), Spike(dof, K[i][dof] * v), Products(K[i], u));
    SumOfSingle(n, Spike(dof, K[i][dof] * v), dof);
    assert MatVec(K, u)[i] == MatVec(R, u)[i] + K[i][dof] * v;
    assert K[i][dof] == K[dof][i];
  }

  /** The elimination of one degree of freedom, in place on K and f. */
  method Enforce(K: array2<real>, f: array<real>, dof: nat, v: real)
    requires K.Length0 == K.Length1 == f.Length && dof < f.Length
    modifies K, f
    ensures Snapshot(K) == EnforcedK(old(Snapshot(K)), dof)
    ensures f[..] == EnforcedF(old(Snapshot(K)), old(f[..]), dof, v)
  {
    ghost var K0, f0 := Snapshot(K), f[..];
    var n := f.Length;
    // f -= v * K[dof, :]
    for i := 0 to n
      invariant forall k :: 0 <= k < n ==> f[k] == if k < i then f0[k] - v * K0[dof][k] else f0[k]
      modifies f
    {
      f[i] := f[i] - v * K[dof, i];
    }
    f[dof] := v;
    ghost var g := EnforcedF(K0, f0, dof, v);
    assert forall k :: 0 <= k < n ==> f[k] == g[k];
    assert f[..] == g;
    // K[dof, :] = K[:, dof] = 0.0
    for j := 0 to n
      invariant forall p, q :: 0 <= p < n && 0 <= q < n ==>
        K[p, q] == if p == dof && q < j then 0.0 else K0[p][q]
      modifies K
    {
      K[dof, j] := 0.0;
    }
    for i := 0 to n
      invariant forall p, q :: 0 <= p < n && 0 <= q < n ==>
        K[p, q] == if p == dof || (q == dof && p < i) then 0.0 else K0[p][q]
      modifies K
    {
      K[i, dof] := 0.0;
    }
    K[dof, dof] := 1.0;
    SnapshotIs(K, EnforcedK(K0, dof));
  }

  /** Enforcing the degrees of freedom of `dofs` one after the other, all to v. */
  function EnforcedAll(K: Matrix, f: seq<real>, dofs: seq<int>, v: real): (r: (Matrix, seq<real>))
    requires IsSquare(K, |f|) && forall k :: 0 <= k < |dofs| ==> 0 <= dofs[k] < |f|
    ensures IsSquare(r.0, |f|) && |r.1| == |f|
  {
    if dofs == [] then (K, f)
    else
      var prev := EnforcedAll(K, f, dofs[..|dofs| - 1], v);
      (EnforcedK(prev.0, dofs[|dofs| - 1]), EnforcedF(prev.0, prev.1, dofs[|dofs| - 1], v))
  }

  /** After enforcing a list, each of its degrees of freedom is constrained
      to v, and earlier constraints to other degrees of freedom still hold. */
  lemma {:induction false} EnforcedAllConstrains(K: Matrix, f: seq<real>, dofs: seq<int>, v: real)
    requires IsSquare(K, |f|) && forall k :: 0 <= k < |dofs| ==> 0 <= dofs[k] < |f|
    ensures forall d: nat :: d in dofs ==> Constrained(EnforcedAll(K, f, dofs, v).0, EnforcedAll(K, f, dofs, v).1, d, v)
    ensures forall d: nat, w :: d !in dofs && d < |f| && Constrained(K, f, d, w) ==>
      Constrained(EnforcedAll(K, f, dofs, v).0, EnforcedAll(K, f, dofs, v).1, d, w)
  {
    if dofs != [] {
      var n := |dofs| - 1;
      var last := dofs[n];
      var prev := EnforcedAll(K, f, dofs[..n], v);
      EnforcedAllConstrains(K, f, dofs[..n], v);
      assert dofs == dofs[..n] + [last];
      EnforceConstrains(prev.0, prev.1, last, v);
      forall d: nat | d in dofs
        ensures Constrained(EnforcedAll(K, f, dofs, v).0, EnforcedAll(K, f, dofs, v).1, d, v)
      {
        if d != last {
          EnforceKeepsEarlier(prev.0, prev.1, d, v, last, v);
        }
      }
      forall d: nat, w | d !in dofs && d < |f| && Constrained(K, f, d, w)
        ensures Constrained(EnforcedAll(K, f, dofs, v).0, EnforcedAll(K, f, dofs, v).1, d, w)
      {
        EnforceKeepsEarlier(prev.0, prev.1, d, w, last, v);
      }
    }
  }

  /** Enforcement over a list keeps K symmetric. */
  lemma {:induction false} EnforcedAllSymmetric(K: Matrix, f: seq<real>, dofs: seq<int>, v: real)
    requires IsSquare(K, |f|) && forall k :: 0 <= k < |dofs| ==> 0 <= dofs[k] < |f|
    requires IsSymmetric(K)
    ensures IsSymmetric(EnforcedAll(K, f, dofs, v).0)
  {
    if dofs != [] {
      EnforcedAllSymmetric(K, f, dofs[..|dofs| - 1], v);
      EnforceKeepsSymmetry(EnforcedAll(K, f, dofs[..|dofs| - 1], v).0, dofs[|dofs| - 1]);
    }
  }

  /** The loop `for dof in dofs:` of the enforcement, all to the value v. */
  method EnforceAll(K: array2<real>, f: array<real>, dofs: seq<int>, v: real)
    requires K.Length0 == K.Length1 == f.Length
    requires forall k :: 0 <= k < |dofs| ==> 0 <= dofs[k] < f.Length
    modifies K, f
    ensures (Snapshot(K), f[..]) == EnforcedAll(old(Snapshot(K)), old(f[..]), dofs, v)
  {
    ghost var K0, f0 := Snapshot(K), f[..];
    for k := 0 to |dofs|
      invariant (Snapshot(K), f[..]) == EnforcedAll(K0, f0, dofs[..k], v)
    {
      assert dofs[..k + 1][..k] == dofs[..k];
      Enforce(K, f, dofs[k], v);
    }
    assert dofs[..|dofs|] == dofs;
  }

  /** Both constraint loops: bottom and left to 0, then top to vTop. */
  method ApplyBoundaryConditions(K: array2<real>, f: array<real>, bottom: seq<int>, left: seq<int>, top: seq<int>, vTop: real)
    requires K.Length0 == K.Length1 == f.Length
    requires forall k :: 0 <= k < |bottom + left| ==> 0 <= (bottom + left)[k] < f.Length
    requires forall k :: 0 <= k < |top| ==> 0 <= top[k] < f.Length
    modifies K, f
    ensures (Snapshot(K), f[..])
      == EnforcedAll(EnforcedAll(old(Snapshot(K)), old(f[..]), bottom + left, 0.0).0,
                     EnforcedAll(old(Snapshot(K)), old(f[..]), bottom + left, 0.0).1, top, vTop)
  {
    EnforceAll(K, f, bottom + left, 0.0);
    EnforceAll(K, f, top, vTop);
  }

  /** After both loops every top degree of freedom is constrained to vTop and
      every bottom or left one that is not also a top one to 0; a symmetric
      K stays symmetric. */
  lemma BoundaryConditionsHold(K: Matrix, f: seq<real>, bottom: seq<int>, left: seq<int>, top: seq<int>, vTop: real)
    requires IsSquare(K, |f|)
    requires forall k :: 0 <= k < |bottom + left| ==> 0 <= (bottom + left)[k] < |f|
    requires forall k :: 0 <= k < |top| ==> 0 <= top[k] < |f|
    ensures var first := EnforcedAll(K, f, bottom + left, 0.0);
            var final := EnforcedAll(first.0, first.1, top, vTop);
            && (forall d: nat :: d in top ==> Constrained(final.0, final.1, d, vTop))
            && (forall d: nat :: (d in bottom || d in left) && d !in top ==> Constrained(final.0, final.1, d, 0.0))
            && (IsSymmetric(K) ==> IsSymmetric(final.0))
  {
    var first := EnforcedAll(K, f, bottom + left, 0.0);
    EnforcedAllConstrains(K, f, bottom + left, 0.0);
    EnforcedAllConstrains(first.0, first.1, top, vTop);
    forall d: nat | d in bottom || d in left
      ensures d in bottom + left
    {
    }
    if IsSymmetric(K) {
      EnforcedAllSymmetric(K, f, bottom + left, 0.0);
      EnforcedAllSymmetric(first.0, first.1, top, vTop);
    }
  }
}

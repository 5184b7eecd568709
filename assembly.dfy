/** Global assembly: every element's stiffness matrix and load vector,
    integrated by Gauss quadrature, is added into the global stiffness matrix
    and right-hand side at the element's degrees of freedom. */
module Assembly {
  import opened Matrices
  import opened Sums
  import opened Dofs
  import opened Shape
  import opened Elements
  import opened Materials
  import opened Meshes

  /* ---------- Scatter-add of an element matrix ---------- */

  /** The share of local entry (j, k) of Ke in global entry (p, q): Ke[j][k]
      when local degrees of freedom j and k are global p and q, else zero. */
  function PairTerm(dofs: seq<int>, Ke: Matrix, p: int, q: int, j: nat, k: nat): real
  {
    if j < |dofs| && k < |dofs| && j < |Ke| && k < |Ke[j]| && dofs[j] == p && dofs[k] == q then Ke[j][k] else 0.0
  }

  function PairTable(dofs: seq<int>, Ke: Matrix, p: int, q: int): (nat, nat) -> real
  {
    (j: nat, k: nat) => PairTerm(dofs, Ke, p, q, j, k)
  }

  /** What adding Ke[j][k] into global entry (dofs[j], dofs[k]), for every
      local pair (j, k), adds to global entry (p, q). */
  function Contribution(dofs: seq<int>, Ke: Matrix, p: int, q: int): real
  {
    Sum(|dofs|, RowSums(|dofs|, PairTable(dofs, Ke, p, q)))
  }

  /** G after Ke has been added in at the degrees of freedom dofs. */
  function ScatterMatrix(G: Matrix, dofs: seq<int>, Ke: Matrix): (R: Matrix)
    requires IsSquare(G, |G|)
    ensures IsSquare(R, |G|)
    ensures forall p, q :: 0 <= p < |G| && 0 <= q < |G| ==> R[p][q] == G[p][q] + Contribution(dofs, Ke, p, q)
  {
    seq(|G|, p requires 0 <= p < |G| => seq(|G|, q requires 0 <= q < |G| => G[p][q] + Contribution(dofs, Ke, p, q)))
  }

  /** A symmetric element matrix contributes symmetrically. */
  lemma ContributionSymmetric(dofs: seq<int>, Ke: Matrix, p: int, q: int)
    requires IsSymmetric(Ke) && |Ke| == |dofs|
    ensures Contribution(dofs, Ke, p, q) == Contribution(dofs, Ke, q, p)
  {
    var n := |dofs|;
    var T, U := PairTable(dofs, Ke, p, q), PairTable(dofs, Ke, q, p);
    SumsCommute(n, n, T);
    forall k: nat | k < n
      ensures ColumnSums(n, T)(k) == RowSums(n, U)(k)
    {
      forall j: nat | j < n
        ensures ColumnTerms(T, k)(j) == RowTerms(U, k)(j)
      {
        assert T(j, k) == U(k, j);
      }
      SumExtensional(n, ColumnTerms(T, k), RowTerms(U, k));
    }
    SumExtensional(n, ColumnSums(n, T), RowSums(n, U));
  }

  /** Scattering a symmetric element matrix keeps a global matrix symmetric. */
  lemma ScatterSymmetric(G: Matrix, dofs: seq<int>, Ke: Matrix)
    requires IsSymmetric(G) && IsSymmetric(Ke) && |Ke| == |dofs|
    ensures IsSymmetric(ScatterMatrix(G, dofs, Ke))
  {
    var R := ScatterMatrix(G, dofs, Ke);
    forall p, q | 0 <= p < |G| && 0 <= q < |G|
      ensures R[p][q] == R[q][p]
    {
      ContributionSymmetric(dofs, Ke, p, q);
    }
  }

  /** A global row that is none of the element's degrees of freedom gets nothing. */
  lemma ContributionOutsideRow(dofs: seq<int>, Ke: Matrix, p: int, q: int)
    requires p !in dofs
    ensures Contribution(dofs, Ke, p, q) == 0.0
  {
    var n := |dofs|;
    var T := PairTable(dofs, Ke, p, q);
    forall j: nat | j < n
      ensures RowSums(n, T)(j) == 0.0
    {
      forall k: nat | k < n
        ensures RowTerms(T, j)(k) == 0.0
      {
        assert dofs[j] != p;
      }
      SumOfZeros(n, RowTerms(T, j));
    }
    SumOfZeros(n, RowSums(n, T));
  }

  /** Likewise for a global column. */
  lemma ContributionOutsideColumn(dofs: seq<int>, Ke: Matrix, p: int, q: int)
    requires q !in dofs
    ensures Contribution(dofs, Ke, p, q) == 0.0
  {
    var n := |dofs|;
    var T := PairTable(dofs, Ke, p, q);
    forall j: nat | j < n
      ensures RowSums(n, T)(j) == 0.0
    {
      forall k: nat | k < n
        ensures RowTerms(T, j)(k) == 0.0
      {
        assert dofs[k] != q;
      }
      SumOfZeros(n, RowTerms(T, j));
    }
    SumOfZeros(n, RowSums(n, T));
  }

  /** With distinct degrees of freedom, global entry (dofs[j], dofs[k])
      receives exactly Ke[j][k]. */
  lemma ContributionAtDofs(dofs: seq<int>, Ke: Matrix, j: nat, k: nat)
    requires Distinct(dofs) && IsSquare(Ke, |dofs|) && j < |dofs| && k < |dofs|
    ensures Contribution(dofs, Ke, dofs[j], dofs[k]) == Ke[j][k]
  {
    var n := |dofs|;
    var T := PairTable(dofs, Ke, dofs[j], dofs[k]);
    forall i: nat | i < n && i != j
      ensures RowSums(n, T)(i) == 0.0
    {
      forall l: nat | l < n
        ensures RowTerms(T, i)(l) == 0.0
      {
        assert dofs[i] != dofs[j];
      }
      SumOfZeros(n, RowTerms(T, i));
    }
    SumOfSingle(n, RowSums(n, T), j);
    forall l: nat | l < n && l != k
      ensures RowTerms(T, j)(l) == 0.0
    {
      assert dofs[l] != dofs[k];
    }
    SumOfSingle(n, RowTerms(T, j), k);
  }

  /** One step of the inner scatter loop: the term of local pair (j, k) in
      global entry (p, q). */
  lemma PairStep(dofs: seq<int>, Ke: Matrix, p: int, q: int, j: nat, k: nat)
    requires j < |dofs| && k < |dofs| && IsSquare(Ke, |dofs|)
    ensures Sum(k + 1, RowTerms(PairTable(dofs, Ke, p, q), j))
            == Sum(k, RowTerms(PairTable(dofs, Ke, p, q), j)) + (if dofs[j] == p && dofs[k] == q then Ke[j][k] else 0.0)
  {
  }

  /** The loops `K_global[dofs[j], dofs[k]] += K[j, k]` over j, k < 8. */
  method ScatterStiffness(G: array2<real>, dofs: array<int>, Ke: Matrix)
    requires G.Length0 == G.Length1 && dofs.Length == 8 && IsSquare(Ke, 8)
    requires forall l :: 0 <= l < 8 ==> 0 <= dofs[l] < G.Length0
    modifies G
    ensures Snapshot(G) == ScatterMatrix(old(Snapshot(G)), dofs[..], Ke)
  {
    ghost var G0 := Snapshot(G);
    ghost var ds := dofs[..];
    for j := 0 to 8
      invariant forall p, q :: 0 <= p < G.Length0 && 0 <= q < G.Length1 ==>
        G[p, q] == G0[p][q] + Sum(j, RowSums(8, PairTable(ds, Ke, p, q)))
    {
      for k := 0 to 8
        invariant forall p, q :: 0 <= p < G.Length0 && 0 <= q < G.Length1 ==>
          G[p, q] == G0[p][q] + Sum(j, RowSums(8, PairTable(ds, Ke, p, q))) + Sum(k, RowTerms(PairTable(ds, Ke, p, q), j))
      {
        forall p, q | 0 <= p < G.Length0 && 0 <= q < G.Length1 {
          PairStep(ds, Ke, p, q, j, k);
        }
        G[dofs[j], dofs[k]] := G[dofs[j], dofs[k]] + Ke[j][k];
      }
    }
    ghost var R := ScatterMatrix(G0, ds, Ke);
    assert |ds| == 8;
    assert forall p, q :: 0 <= p < G.Length0 && 0 <= q < G.Length1 ==> R[p][q] == G[p, q];
    SnapshotIs(G, R);
  }

  /* ---------- The global stiffness matrix ---------- */

  /** A connectivity table and a coordinate table that fit together: two
      coordinates per node, four corners per element, every corner a node. */
  ghost predicate MeshTables(topo: seq<seq<int>>, X: Matrix)
  {
    IsMatrix(X, |X|, 2) && InRange(topo, |X|)
  }

  /** The coordinates of element e's corners, one row (x, y) per corner. */
  function CornerCoordinates(topo: seq<seq<int>>, X: Matrix, e: nat): (x: Matrix)
    requires MeshTables(topo, X) && e < |topo|
    ensures IsMatrix(x, 4, 2)
    ensures forall c :: 0 <= c < 4 ==> x[c] == X[topo[e][c]]
  {
    [X[topo[e][0]], X[topo[e][1]], X[topo[e][2]], X[topo[e][3]]]
  }

  /** The outcome of the stiffness quadrature of every element. */
  function ElementMatrices(topo: seq<seq<int>>, X: Matrix, D: Matrix): (Ks: seq<Result<Matrix>>)
    requires MeshTables(topo, X) && IsSquare(D, 3)
    ensures |Ks| == |topo|
    ensures forall e :: 0 <= e < |topo| ==> Ks[e] == ElementStiffnessUpTo(CornerCoordinates(topo, X, e), D, 4)
  {
    seq(|topo|, e requires 0 <= e < |topo| => ElementStiffnessUpTo(CornerCoordinates(topo, X, e), D, 4))
  }

  /** The n x n global matrix after the element matrices Ks[0 .. e - 1] have
      been scattered in turn, or the outcome of the first element that failed. */
  function StiffnessFold(topo: seq<seq<int>>, n: nat, Ks: seq<Result<Matrix>>, e: nat): (r: Result<Matrix>)
    requires Quadrilaterals(topo) && |Ks| == |topo| && e <= |topo|
    ensures r.Ok? ==> IsSquare(r.value, n)
  {
    if e == 0 then Ok(Zeros(n, n))
    else match StiffnessFold(topo, n, Ks, e - 1)
      case Fail(msg) => Fail(msg)
      case Ok(G) =>
        match Ks[e - 1]
          case Fail(msg) => Fail(msg)
          case Ok(Ke) => Ok(ScatterMatrix(G, ElementDofs(topo[e - 1]), Ke))
  }

  /** The global stiffness matrix of a mesh for the constitutive matrix D. */
  function GlobalStiffness(topo: seq<seq<int>>, X: Matrix, D: Matrix): (r: Result<Matrix>)
    requires MeshTables(topo, X) && IsSquare(D, 3)
    ensures r.Ok? ==> IsSquare(r.value, 2 * |X|)
  {
    StiffnessFold(topo, 2 * |X|, ElementMatrices(topo, X, D), |topo|)
  }

  /** The fold fails exactly when one of the first e elements failed, and
      then with that element's outcome. */
  lemma {:induction false} FoldFails(topo: seq<seq<int>>, n: nat, Ks: seq<Result<Matrix>>, e: nat)
    requires Quadrilaterals(topo) && |Ks| == |topo| && e <= |topo|
    ensures StiffnessFold(topo, n, Ks, e).Fail? <==> exists i :: 0 <= i < e && Ks[i].Fail?
    ensures StiffnessFold(topo, n, Ks, e).Fail? ==> exists i :: 0 <= i < e && Ks[i] == StiffnessFold(topo, n, Ks, e)
  {
    if e > 0 {
      FoldFails(topo, n, Ks, e - 1);
      if exists i :: 0 <= i < e - 1 && Ks[i].Fail? {
        var i :| 0 <= i < e - 1 && Ks[i].Fail?;
        assert 0 <= i < e;
      }
      if StiffnessFold(topo, n, Ks, e - 1).Fail? {
        var i :| 0 <= i < e - 1 && Ks[i] == StiffnessFold(topo, n, Ks, e - 1);
        assert 0 <= i < e;
      }
    }
  }

  /** Scattering symmetric element matrices keeps the global matrix symmetric. */
  lemma {:induction false} FoldSymmetric(topo: seq<seq<int>>, n: nat, Ks: seq<Result<Matrix>>, e: nat)
    requires Quadrilaterals(topo) && |Ks| == |topo| && e <= |topo|
    requires forall i :: 0 <= i < e && Ks[i].Ok? ==> IsSymmetric(Ks[i].value) && |Ks[i].value| == 8
    requires StiffnessFold(topo, n, Ks, e).Ok?
    ensures IsSymmetric(StiffnessFold(topo, n, Ks, e).value)
    decreases e
  {
    if e > 0 {
      var G := StiffnessFold(topo, n, Ks, e - 1).value;
      var Ke := Ks[e - 1].value;
      FoldSymmetric(topo, n, Ks, e - 1);
      ScatterSymmetric(G, ElementDofs(topo[e - 1]), Ke);
      assert StiffnessFold(topo, n, Ks, e).value == ScatterMatrix(G, ElementDofs(topo[e - 1]), Ke);
    }
  }

  /** Row p and column p of G are zero. */
  ghost predicate ZeroLine(G: Matrix, p: nat)
    requires IsSquare(G, |G|) && p < |G|
  {
    forall q :: 0 <= q < |G| ==> G[p][q] == 0.0 && G[q][p] == 0.0
  }

  /** Scattering at degrees of freedom other than p keeps row and column p zero. */
  lemma ScatterKeepsZeroLine(G: Matrix, dofs: seq<int>, Ke: Matrix, p: nat)
    requires IsSquare(G, |G|) && p < |G| && ZeroLine(G, p) && p !in dofs
    ensures ZeroLine(ScatterMatrix(G, dofs, Ke), p)
  {
    forall q | 0 <= q < |G|
      ensures Contribution(dofs, Ke, p, q) == 0.0 && Contribution(dofs, Ke, q, p) == 0.0
    {
      ContributionOutsideRow(dofs, Ke, p, q);
      ContributionOutsideColumn(dofs, Ke, q, p);
    }
  }

  /** Node `node` is a corner of none of the first e elements. */
  ghost predicate Unused(topo: seq<seq<int>>, e: nat, node: int)
    requires e <= |topo|
  {
    forall i :: 0 <= i < e ==> node !in topo[i]
  }

  /** Both degrees of freedom of a node that is a corner of no element keep a
      zero row and a zero column. */
  lemma {:induction false} FoldUntouched(topo: seq<seq<int>>, n: nat, Ks: seq<Result<Matrix>>, e: nat, p: nat)
    requires Quadrilaterals(topo) && |Ks| == |topo| && e <= |topo| && p < n
    requires StiffnessFold(topo, n, Ks, e).Ok? && Unused(topo, e, p / 2)
    ensures ZeroLine(StiffnessFold(topo, n, Ks, e).value, p)
  {
    if e > 0 {
      FoldUntouched(topo, n, Ks, e - 1, p);
      ElementDofsMembership(topo[e - 1], p);
      ScatterKeepsZeroLine(StiffnessFold(topo, n, Ks, e - 1).value, ElementDofs(topo[e - 1]), Ks[e - 1].value, p);
    }
  }

  /** The stiffness assembly fails exactly when some element has a degenerate
      quadrature point, and then with the Jacobian error. */
  lemma StiffnessFails(topo: seq<seq<int>>, X: Matrix, D: Matrix)
    requires MeshTables(topo, X) && IsSquare(D, 3)
    ensures GlobalStiffness(topo, X, D).Fail? <==> SomeDegenerate(topo, X, |topo|)
    ensures GlobalStiffness(topo, X, D).Fail? ==> GlobalStiffness(topo, X, D).message == JacobianError
  {
    var Ks := ElementMatrices(topo, X, D);
    FoldFails(topo, 2 * |X|, Ks, |topo|);
    forall i | 0 <= i < |topo|
      ensures Ks[i].Fail? <==> Degenerate(CornerCoordinates(topo, X, i), 4)
    {
      ElementStiffnessOutcome(CornerCoordinates(topo, X, i), D, 4);
    }
  }

  /** Some element among the first e has a degenerate quadrature point. */
  ghost predicate SomeDegenerate(topo: seq<seq<int>>, X: Matrix, e: nat)
    requires MeshTables(topo, X) && e <= |topo|
  {
    exists i :: 0 <= i < e && Degenerate(CornerCoordinates(topo, X, i), 4)
  }

  /** With a symmetric constitutive matrix the global stiffness matrix is
      symmetric, of size twice the number of nodes, and zero in the rows and
      columns of nodes that belong to no element. */
  lemma StiffnessShape(topo: seq<seq<int>>, X: Matrix, D: Matrix)
    requires MeshTables(topo, X) && IsSquare(D, 3) && IsSymmetric(D)
    requires GlobalStiffness(topo, X, D).Ok?
    ensures IsSquare(GlobalStiffness(topo, X, D).value, 2 * |X|)
    ensures IsSymmetric(GlobalStiffness(topo, X, D).value)
    ensures forall p :: 0 <= p < 2 * |X| && Unused(topo, |topo|, p / 2) ==> ZeroLine(GlobalStiffness(topo, X, D).value, p)
  {
    var Ks := ElementMatrices(topo, X, D);
    forall i | 0 <= i < |topo| && Ks[i].Ok?
      ensures IsSymmetric(Ks[i].value) && |Ks[i].value| == 8
    {
      ElementStiffnessOutcome(CornerCoordinates(topo, X, i), D, 4);
    }
    FoldSymmetric(topo, 2 * |X|, Ks, |topo|);
    forall p | 0 <= p < 2 * |X| && Unused(topo, |topo|, p / 2)
      ensures ZeroLine(GlobalStiffness(topo, X, D).value, p)
    {
      FoldUntouched(topo, 2 * |X|, Ks, |topo|, p);
    }
  }

  /** Nodes a and b are never corners of one and the same element among the first e. */
  ghost predicate Apart(topo: seq<seq<int>>, e: nat, a: int, b: int)
    requires e <= |topo|
  {
    forall i :: 0 <= i < e ==> a !in topo[i] || b !in topo[i]
  }

  /** Entry (p, q) stays zero while no element couples the nodes of p and q. */
  lemma {:induction false} FoldApart(topo: seq<seq<int>>, n: nat, Ks: seq<Result<Matrix>>, e: nat, p: nat, q: nat)
    requires Quadrilaterals(topo) && |Ks| == |topo| && e <= |topo| && p < n && q < n
    requires StiffnessFold(topo, n, Ks, e).Ok? && Apart(topo, e, p / 2, q / 2)
    ensures StiffnessFold(topo, n, Ks, e).value[p][q] == 0.0
    decreases e
  {
    if e > 0 {
      var G := StiffnessFold(topo, n, Ks, e - 1).value;
      var dofs := ElementDofs(topo[e - 1]);
      var Ke := Ks[e - 1].value;
      FoldApart(topo, n, Ks, e - 1, p, q);
      ElementDofsMembership(topo[e - 1], p);
      ElementDofsMembership(topo[e - 1], q);
      if p !in dofs {
        ContributionOutsideRow(dofs, Ke, p, q);
      } else {
        ContributionOutsideColumn(dofs, Ke, p, q);
      }
      assert StiffnessFold(topo, n, Ks, e).value == ScatterMatrix(G, dofs, Ke);
    }
  }

  /** The global stiffness is sparse: an entry whose two nodes share no
      element is zero, as the matrix starts at zero and each element adds
      only to the entries between its own degrees of freedom. */
  lemma StiffnessSparsity(topo: seq<seq<int>>, X: Matrix, D: Matrix, p: nat, q: nat)
    requires MeshTables(topo, X) && IsSquare(D, 3)
    requires GlobalStiffness(topo, X, D).Ok? && p < 2 * |X| && q < 2 * |X|
    requires Apart(topo, |topo|, p / 2, q / 2)
    ensures GlobalStiffness(topo, X, D).value[p][q] == 0.0
  {
    FoldApart(topo, 2 * |X|, ElementMatrices(topo, X, D), |topo|, p, q);
  }

  /* ---------- The right-hand side ---------- */

  /** The last position of x in s. */
  function LastIndex(s: seq<int>, x: int): (i: nat)
    requires x in s
    ensures i < |s| && s[i] == x && forall k :: i < k < |s| ==> s[k] != x
  {
    if s[|s| - 1] == x then |s| - 1 else LastIndex(s[..|s| - 1], x)
  }

  /** Numpy's `g[dofs] += f`: every g[dofs[l]] + f[l] is computed first and
      then written back in order, so of repeated indices the last one wins. */
  function BufferedAdd(g: seq<real>, dofs: seq<int>, f: seq<real>): (r: seq<real>)
    requires |dofs| == |f| && forall l :: 0 <= l < |dofs| ==> 0 <= dofs[l] < |g|
    ensures |r| == |g|
  {
    seq(|g|, p requires 0 <= p < |g| => if p in dofs then g[p] + f[LastIndex(dofs, p)] else g[p])
  }

  /** Adding f[l] into g[dofs[l]] one entry after the other. */
  function SequentialAdd(g: seq<real>, dofs: seq<int>, f: seq<real>): (r: seq<real>)
    requires |dofs| == |f| && forall l :: 0 <= l < |dofs| ==> 0 <= dofs[l] < |g|
    ensures |r| == |g|
  {
    if dofs == [] then g
    else
      var h := SequentialAdd(g, dofs[..|dofs| - 1], f[..|f| - 1]);
      h[dofs[|dofs| - 1] := h[dofs[|dofs| - 1]] + f[|f| - 1]]
  }

  /** With distinct indices the buffered update is the entrywise one: each
      g[dofs[l]] grows by f[l] and nothing else changes. */
  lemma BufferedAddDistinct(g: seq<real>, dofs: seq<int>, f: seq<real>)
    requires |dofs| == |f| && forall l :: 0 <= l < |dofs| ==> 0 <= dofs[l] < |g|
    requires Distinct(dofs)
    ensures forall l :: 0 <= l < |dofs| ==> BufferedAdd(g, dofs, f)[dofs[l]] == g[dofs[l]] + f[l]
    ensures forall p :: 0 <= p < |g| && p !in dofs ==> BufferedAdd(g, dofs, f)[p] == g[p]
  {
    forall l | 0 <= l < |dofs|
      ensures BufferedAdd(g, dofs, f)[dofs[l]] == g[dofs[l]] + f[l]
    {
      assert LastIndex(dofs, dofs[l]) == l;
    }
  }

  /** Hence, with distinct indices, numpy's vectorised `+=` equals
      accumulation entry by entry. */
  lemma {:induction false} BufferedIsSequential(g: seq<real>, dofs: seq<int>, f: seq<real>)
    requires |dofs| == |f| && forall l :: 0 <= l < |dofs| ==> 0 <= dofs[l] < |g|
    requires Distinct(dofs)
    ensures BufferedAdd(g, dofs, f) == SequentialAdd(g, dofs, f)
  {
    if dofs != [] {
      var n := |dofs| - 1;
      var ds, fs := dofs[..n], f[..n];
      assert Distinct(ds);
      BufferedIsSequential(g, ds, fs);
      var h := BufferedAdd(g, ds, fs);
      forall p | 0 <= p < |g|
        ensures BufferedAdd(g, dofs, f)[p] == h[dofs[n] := h[dofs[n]] + f[n]][p]
      {
        if p == dofs[n] {
          assert p !in ds;
        } else if p in ds {
          assert LastIndex(dofs, p) == LastIndex(ds, p);
        }
      }
    }
  }

  /** The outcome of the load quadrature of every element. */
  function ElementLoads(topo: seq<seq<int>>, X: Matrix, b: (real, real)): (Fs: seq<Result<seq<real>>>)
    requires MeshTables(topo, X)
    ensures |Fs| == |topo|
    ensures forall e :: 0 <= e < |topo| ==> Fs[e] == ElementLoadUpTo(CornerCoordinates(topo, X, e), b, 4)
  {
    seq(|topo|, e requires 0 <= e < |topo| => ElementLoadUpTo(CornerCoordinates(topo, X, e), b, 4))
  }

  /** Element load vectors have eight entries. */
  ghost predicate EightEntries(Fs: seq<Result<seq<real>>>)
  {
    forall i :: 0 <= i < |Fs| && Fs[i].Ok? ==> |Fs[i].value| == 8
  }

  /** The global load vector of a mesh with nNodes nodes after the element
      loads Fs[0 .. e - 1] have been added in turn, or the outcome of the
      first element that failed. */
  function LoadFold(topo: seq<seq<int>>, nNodes: nat, Fs: seq<Result<seq<real>>>, e: nat): (r: Result<seq<real>>)
    requires InRange(topo, nNodes) && |Fs| == |topo| && EightEntries(Fs) && e <= |topo|
    ensures r.Ok? ==> |r.value| == 2 * nNodes
  {
    if e == 0 then Ok(ZeroVector(2 * nNodes))
    else match LoadFold(topo, nNodes, Fs, e - 1)
      case Fail(msg) => Fail(msg)
      case Ok(g) =>
        match Fs[e - 1]
          case Fail(msg) => Fail(msg)
          case Ok(fe) =>
            ElementDofsInRange(topo[e - 1], nNodes);
            Ok(BufferedAdd(g, ElementDofs(topo[e - 1]), fe))
  }

  /** The global right-hand side for the body force b: the zero vector when
      both components of b are zero, otherwise the integrated element loads. */
  function GlobalLoad(topo: seq<seq<int>>, X: Matrix, b: (real, real)): (r: Result<seq<real>>)
    requires MeshTables(topo, X)
    ensures r.Ok? ==> |r.value| == 2 * |X|
  {
    if b.0 == 0.0 && b.1 == 0.0 then Ok(ZeroVector(2 * |X|))
    else LoadFold(topo, |X|, ElementLoads(topo, X, b), |topo|)
  }

  /** LoadFold with the load assembly's indices as written, `2 i - 1` for the
      y-load of node i: the right-hand side the source computes. */
  function LoadFoldAsWritten(topo: seq<seq<int>>, nNodes: nat, Fs: seq<Result<seq<real>>>, e: nat): (r: Result<seq<real>>)
    requires InRange(topo, nNodes) && |Fs| == |topo| && EightEntries(Fs) && e <= |topo|
    ensures r.Ok? ==> |r.value| == 2 * nNodes
  {
    if e == 0 then Ok(ZeroVector(2 * nNodes))
    else match LoadFoldAsWritten(topo, nNodes, Fs, e - 1)
      case Fail(msg) => Fail(msg)
      case Ok(g) =>
        match Fs[e - 1]
          case Fail(msg) => Fail(msg)
          case Ok(fe) =>
            AsWrittenInRange(topo[e - 1], nNodes);
            Ok(BufferedAdd(g, RhsElementDofsAsWritten(topo[e - 1], 2 * nNodes), fe))
  }

  /** GlobalLoad as written: same zero-force shortcut, as-written indices. */
  function GlobalLoadAsWritten(topo: seq<seq<int>>, X: Matrix, b: (real, real)): (r: Result<seq<real>>)
    requires MeshTables(topo, X)
    ensures r.Ok? ==> |r.value| == 2 * |X|
  {
    if b.0 == 0.0 && b.1 == 0.0 then Ok(ZeroVector(2 * |X|))
    else LoadFoldAsWritten(topo, |X|, ElementLoads(topo, X, b), |topo|)
  }

  /** The load fold fails exactly when one of the first e elements failed,
      and then with that element's outcome. */
  lemma {:induction false} LoadFoldFails(topo: seq<seq<int>>, nNodes: nat, Fs: seq<Result<seq<real>>>, e: nat)
    requires InRange(topo, nNodes) && |Fs| == |topo| && EightEntries(Fs) && e <= |topo|
    ensures LoadFold(topo, nNodes, Fs, e).Fail? <==> exists i :: 0 <= i < e && Fs[i].Fail?
    ensures LoadFold(topo, nNodes, Fs, e).Fail? ==> exists i :: 0 <= i < e && Fs[i] == LoadFold(topo, nNodes, Fs, e)
    decreases e
  {
    if e > 0 {
      LoadFoldFails(topo, nNodes, Fs, e - 1);
      if exists i :: 0 <= i < e - 1 && Fs[i].Fail? {
        var i :| 0 <= i < e - 1 && Fs[i].Fail?;
        assert 0 <= i < e;
      }
      if LoadFold(topo, nNodes, Fs, e - 1).Fail? {
        var i :| 0 <= i < e - 1 && Fs[i] == LoadFold(topo, nNodes, Fs, e - 1);
        assert 0 <= i < e;
      }
    }
  }

  /** Both degrees of freedom of a node that is a corner of no element
      receive no load. */
  lemma {:induction false} LoadFoldUntouched(topo: seq<seq<int>>, nNodes: nat, Fs: seq<Result<seq<real>>>, e: nat, p: nat)
    requires InRange(topo, nNodes) && |Fs| == |topo| && EightEntries(Fs) && e <= |topo| && p < 2 * nNodes
    requires LoadFold(topo, nNodes, Fs, e).Ok? && Unused(topo, e, p / 2)
    ensures LoadFold(topo, nNodes, Fs, e).value[p] == 0.0
    decreases e
  {
    if e > 0 {
      LoadFoldUntouched(topo, nNodes, Fs, e - 1, p);
      ElementDofsMembership(topo[e - 1], p);
    }
  }

  /** The right-hand side fails exactly when the body force is not zero and
      some element has a degenerate quadrature point, and then with the
      Jacobian error; a zero body force gives the zero vector whatever the
      elements look like. */
  lemma RhsOutcome(topo: seq<seq<int>>, X: Matrix, b: (real, real))
    requires MeshTables(topo, X)
    ensures GlobalLoad(topo, X, b).Fail? <==> (b.0 != 0.0 || b.1 != 0.0) && SomeDegenerate(topo, X, |topo|)
    ensures GlobalLoad(topo, X, b).Fail? ==> GlobalLoad(topo, X, b).message == JacobianError
    ensures b.0 == 0.0 && b.1 == 0.0 ==> GlobalLoad(topo, X, b) == Ok(ZeroVector(2 * |X|))
  {
    var Fs := ElementLoads(topo, X, b);
    LoadFoldFails(topo, |X|, Fs, |topo|);
    forall i | 0 <= i < |topo|
      ensures Fs[i].Fail? <==> Degenerate(CornerCoordinates(topo, X, i), 4)
    {
      ElementLoadOutcome(CornerCoordinates(topo, X, i), b, 4);
    }
  }

  /** A successful right-hand side has one entry per degree of freedom, and
      none at the nodes that belong to no element. */
  lemma RhsShape(topo: seq<seq<int>>, X: Matrix, b: (real, real))
    requires MeshTables(topo, X) && GlobalLoad(topo, X, b).Ok?
    ensures |GlobalLoad(topo, X, b).value| == 2 * |X|
    ensures forall p :: 0 <= p < 2 * |X| && Unused(topo, |topo|, p / 2) ==> GlobalLoad(topo, X, b).value[p] == 0.0
  {
    if b.0 != 0.0 || b.1 != 0.0 {
      forall p | 0 <= p < 2 * |X| && Unused(topo, |topo|, p / 2)
        ensures GlobalLoad(topo, X, b).value[p] == 0.0
      {
        LoadFoldUntouched(topo, |X|, ElementLoads(topo, X, b), |topo|, p);
      }
    }
  }

  /* ---------- The assembly loops ---------- */

  /** One more element with a matrix scatters it into the global matrix. */
  lemma FoldStep(topo: seq<seq<int>>, n: nat, Ks: seq<Result<Matrix>>, e: nat, G: Matrix, Ke: Matrix)
    requires Quadrilaterals(topo) && |Ks| == |topo| && e < |topo|
    requires StiffnessFold(topo, n, Ks, e) == Ok(G) && Ks[e] == Ok(Ke)
    ensures StiffnessFold(topo, n, Ks, e + 1) == Ok(ScatterMatrix(G, ElementDofs(topo[e]), Ke))
  {
  }

  /** An element whose quadrature fails makes the whole assembly fail. */
  lemma StiffnessFailsAt(topo: seq<seq<int>>, X: Matrix, D: Matrix, e: nat)
    requires MeshTables(topo, X) && IsSquare(D, 3) && e < |topo|
    requires ElementStiffnessUpTo(CornerCoordinates(topo, X, e), D, 4).Fail?
    ensures GlobalStiffness(topo, X, D).Fail? && GlobalStiffness(topo, X, D).message == JacobianError
  {
    StiffnessFails(topo, X, D);
    ElementStiffnessOutcome(CornerCoordinates(topo, X, e), D, 4);
  }

  /** An element whose load quadrature fails makes a loaded right-hand side fail. */
  lemma LoadFailsAt(topo: seq<seq<int>>, X: Matrix, b: (real, real), e: nat)
    requires MeshTables(topo, X) && e < |topo| && (b.0 != 0.0 || b.1 != 0.0)
    requires ElementLoadUpTo(CornerCoordinates(topo, X, e), b, 4).Fail?
    ensures GlobalLoad(topo, X, b) == Fail(JacobianError)
  {
    RhsOutcome(topo, X, b);
    ElementLoadOutcome(CornerCoordinates(topo, X, e), b, 4);
  }

  /** One more element with a load vector adds it into the global vector. */
  lemma LoadFoldStep(topo: seq<seq<int>>, nNodes: nat, Fs: seq<Result<seq<real>>>, e: nat, g: seq<real>, fe: seq<real>)
    requires InRange(topo, nNodes) && |Fs| == |topo| && EightEntries(Fs) && e < |topo|
    requires LoadFold(topo, nNodes, Fs, e) == Ok(g) && Fs[e] == Ok(fe)
    ensures forall l :: 0 <= l < 8 ==> 0 <= ElementDofs(topo[e])[l] < |g|
    ensures LoadFold(topo, nNodes, Fs, e + 1) == Ok(BufferedAdd(g, ElementDofs(topo[e]), fe))
  {
    ElementDofsInRange(topo[e], nNodes);
  }

  /** LoadFoldStep for the load assembly's indices as written. */
  lemma LoadFoldAsWrittenStep(topo: seq<seq<int>>, nNodes: nat, Fs: seq<Result<seq<real>>>, e: nat, g: seq<real>, fe: seq<real>)
    requires InRange(topo, nNodes) && |Fs| == |topo| && EightEntries(Fs) && e < |topo|
    requires LoadFoldAsWritten(topo, nNodes, Fs, e) == Ok(g) && Fs[e] == Ok(fe)
    ensures forall l :: 0 <= l < 8 ==> 0 <= RhsElementDofsAsWritten(topo[e], 2 * nNodes)[l] < |g|
    ensures LoadFoldAsWritten(topo, nNodes, Fs, e + 1) == Ok(BufferedAdd(g, RhsElementDofsAsWritten(topo[e], 2 * nNodes), fe))
  {
    AsWrittenInRange(topo[e], nNodes);
  }

  /** A valid mesh's tables fit together. */
  lemma ValidTables(mesh: Mesh)
    requires mesh.Valid()
    ensures MeshTables(mesh.Topology(), mesh.Coordinates())
  {
  }

  /** `mesh.coordinates[mesh.topology[e]]`: the corner coordinates of element e. */
  method GatherCorners(mesh: Mesh, e: nat) returns (x: Matrix)
    requires mesh.Valid() && e < mesh.NElements()
    ensures MeshTables(mesh.Topology(), mesh.Coordinates())
    ensures x == CornerCoordinates(mesh.Topology(), mesh.Coordinates(), e)
  {
    ValidTables(mesh);
    var t, X := mesh.topology, mesh.coordinates;
    x := [[X[t[e, 0], 0], X[t[e, 0], 1]], [X[t[e, 1], 0], X[t[e, 1], 1]],
          [X[t[e, 2], 0], X[t[e, 2], 1]], [X[t[e, 3], 0], X[t[e, 3], 1]]];
    ghost var y := CornerCoordinates(mesh.Topology(), mesh.Coordinates(), e);
    forall c | 0 <= c < 4
      ensures x[c] == y[c]
    {
      assert x[c][0] == y[c][0] && x[c][1] == y[c][1];
    }
  }

  /** The packing loop of the stiffness assembly, which the load assembly of
      this model reuses with its corrected y-index: local degrees of freedom
      2 j and 2 j + 1 are global 2 topology[e, j] and 2 topology[e, j] + 1. */
  method PackDofs(mesh: Mesh, e: nat) returns (dofs: array<int>)
    requires mesh.Valid() && e < mesh.NElements()
    ensures fresh(dofs)
    ensures dofs[..] == ElementDofs(mesh.Topology()[e])
  {
    dofs := new int[8](_ => 0);
    for j := 0 to 4
      invariant forall l :: 0 <= l < 2 * j ==> dofs[l] == ElementDofs(mesh.Topology()[e])[l]
    {
      dofs[2 * j] := 2 * mesh.topology[e, j];
      dofs[2 * j + 1] := 2 * mesh.topology[e, j] + 1;
    }
  }

  /** The stiffness assembly: the constitutive matrix chosen by planeStress,
      then for each element its quadrature and its scatter into a global
      matrix that starts at zero. */
  method StiffnessMatrix(mesh: Mesh, material: Material, planeStress: bool := true) returns (r: Result<array2<real>>)
    requires mesh.Valid()
    requires material.nu != -1.0 && (if planeStress then material.nu != 1.0 else material.nu != 0.5)
    ensures MeshTables(mesh.Topology(), mesh.Coordinates())
    ensures r.Ok? <==> GlobalStiffness(mesh.Topology(), mesh.Coordinates(), ConstitutiveMatrix(material, planeStress)).Ok?
    ensures r.Fail? ==> r.message == JacobianError
    ensures r.Ok? ==> fresh(r.value)
    ensures r.Ok? ==> Snapshot(r.value) == GlobalStiffness(mesh.Topology(), mesh.Coordinates(), ConstitutiveMatrix(material, planeStress)).value
  {
    ValidTables(mesh);
    var D := ConstitutiveMatrix(material, planeStress);
    var nDofs := 2 * mesh.NNodes();
    var G := new real[nDofs, nDofs]((_, _) => 0.0);
    ghost var topo, X := mesh.Topology(), mesh.Coordinates();
    ghost var Ks := ElementMatrices(topo, X, D);
    assert Snapshot(G) == Zeros(nDofs, nDofs) by {
      SnapshotIs(G, Zeros(nDofs, nDofs));
    }
    for e := 0 to mesh.NElements()
      invariant StiffnessFold(topo, nDofs, Ks, e) == Ok(Snapshot(G))
    {
      var ok := AddElementStiffness(mesh, D, G, e);
      if !ok {
        return Fail(JacobianError);
      }
    }
    r := Ok(G);
  }

  /** One pass of the element loop of the stiffness assembly: the quadrature
      of element e and, when it succeeds, the scatter of its matrix into G. */
  method AddElementStiffness(mesh: Mesh, D: Matrix, G: array2<real>, e: nat) returns (ok: bool)
    requires mesh.Valid() && IsSquare(D, 3) && e < mesh.NElements()
    requires G.Length0 == G.Length1 == 2 * mesh.NNodes()
    requires MeshTables(mesh.Topology(), mesh.Coordinates())
    requires StiffnessFold(mesh.Topology(), G.Length0, ElementMatrices(mesh.Topology(), mesh.Coordinates(), D), e) == Ok(Snapshot(G))
    modifies G
    ensures ok ==> StiffnessFold(mesh.Topology(), G.Length0, ElementMatrices(mesh.Topology(), mesh.Coordinates(), D), e + 1) == Ok(Snapshot(G))
    ensures !ok ==> GlobalStiffness(mesh.Topology(), mesh.Coordinates(), D) == Fail(JacobianError)
  {
    ghost var topo, X := mesh.Topology(), mesh.Coordinates();
    ghost var Ks := ElementMatrices(topo, X, D);
    ghost var G0 := Snapshot(G);
    var x := GatherCorners(mesh, e);
    var Ke := ElementStiffness(x, D);
    assert Ks[e] == Ke;
    if Ke.Fail? {
      StiffnessFailsAt(topo, X, D, e);
      return false;
    }
    var dofs := PackDofs(mesh, e);
    ScatterElement(G, dofs, topo, mesh.NNodes(), Ks, e, Ke.value);
    ok := true;
  }

  /** The scatter of one element matrix, as a step of the stiffness fold. */
  method ScatterElement(G: array2<real>, dofs: array<int>, ghost topo: seq<seq<int>>, ghost nNodes: nat,
                         ghost Ks: seq<Result<Matrix>>, ghost e: nat, Ke: Matrix)
    requires InRange(topo, nNodes) && |Ks| == |topo| && e < |topo| && Ks[e] == Ok(Ke)
    requires G.Length0 == G.Length1 == 2 * nNodes && IsSquare(Ke, 8)
    requires dofs[..] == ElementDofs(topo[e])
    requires StiffnessFold(topo, G.Length0, Ks, e) == Ok(Snapshot(G))
    modifies G
    ensures StiffnessFold(topo, G.Length0, Ks, e + 1) == Ok(Snapshot(G))
  {
    ghost var G0 := Snapshot(G);
    ElementDofsInRange(topo[e], nNodes);
    ScatterStiffness(G, dofs, Ke);
    FoldStep(topo, G.Length0, Ks, e, G0, Ke);
  }

  /** The right-hand side assembly: nothing to do for a zero body force;
      otherwise for each element its load quadrature and the vectorised
      update of the global vector at its degrees of freedom. The global
      vector is kept as a value. */
  method RhsVector(mesh: Mesh, b: (real, real)) returns (r: Result<seq<real>>)
    requires mesh.Valid()
    ensures MeshTables(mesh.Topology(), mesh.Coordinates())
    ensures r == GlobalLoad(mesh.Topology(), mesh.Coordinates(), b)
  {
    ValidTables(mesh);
    var nDofs := 2 * mesh.NNodes();
    var g := ZeroVector(nDofs);
    if b.0 != 0.0 || b.1 != 0.0 {
      ghost var topo, X := mesh.Topology(), mesh.Coordinates();
      ghost var Fs := ElementLoads(topo, X, b);
      for e := 0 to mesh.NElements()
        invariant LoadFold(topo, mesh.NNodes(), Fs, e) == Ok(g)
      {
        var ok;
        ok, g := AddElementLoad(mesh, b, g, e);
        if !ok {
          return Fail(JacobianError);
        }
      }
    }
    r := Ok(g);
  }

  /** One pass of the element loop of the right-hand side assembly: the load
      quadrature of element e and, when it succeeds, `f_global[dofs] += f`. */
  method AddElementLoad(mesh: Mesh, b: (real, real), g0: seq<real>, e: nat) returns (ok: bool, g: seq<real>)
    requires mesh.Valid() && e < mesh.NElements() && (b.0 != 0.0 || b.1 != 0.0)
    requires MeshTables(mesh.Topology(), mesh.Coordinates())
    requires LoadFold(mesh.Topology(), mesh.NNodes(), ElementLoads(mesh.Topology(), mesh.Coordinates(), b), e) == Ok(g0)
    ensures ok ==> LoadFold(mesh.Topology(), mesh.NNodes(), ElementLoads(mesh.Topology(), mesh.Coordinates(), b), e + 1) == Ok(g)
    ensures !ok ==> GlobalLoad(mesh.Topology(), mesh.Coordinates(), b) == Fail(JacobianError)
  {
    ghost var topo, X := mesh.Topology(), mesh.Coordinates();
    var x := GatherCorners(mesh, e);
    var fe := ElementLoad(x, b);
    if fe.Fail? {
      LoadFailsAt(topo, X, b, e);
      return false, g0;
    }
    var dofs := PackDofs(mesh, e);
    LoadFoldStep(topo, mesh.NNodes(), ElementLoads(topo, X, b), e, g0, fe.value);
    g := BufferedAdd(g0, dofs[..], fe.value);
    ok := true;
  }

  /* ---------- The grid mesh is never degenerate ---------- */

  /** Corners counterclockwise from (x0, y0) around a dx x dy rectangle. */
  ghost predicate RectangleCorners(x: Matrix, x0: real, y0: real, dx: real, dy: real)
  {
    && |x| == 4
    && x[0] == [x0, y0] && x[1] == [x0 + dx, y0]
    && x[2] == [x0 + dx, y0 + dy] && x[3] == [x0, y0 + dy]
  }

  /** Such a rectangle is the affine image of the reference square under
      (xi, eta) |-> (x0 + dx (1 + xi) / 2, y0 + dy (1 + eta) / 2). */
  lemma RectangleIsAffine(x: Matrix, x0: real, y0: real, dx: real, dy: real)
    requires RectangleCorners(x, x0, y0, dx, dy)
    ensures IsMatrix(x, 4, 2)
    ensures AffineCorners(x, dx / 2.0, 0.0, x0 + dx / 2.0, 0.0, dy / 2.0, y0 + dy / 2.0)
  {
    assert Column(x, 0) == AffineNodal(dx / 2.0, 0.0, x0 + dx / 2.0);
    assert Column(x, 1) == AffineNodal(0.0, dy / 2.0, y0 + dy / 2.0);
  }

  /** So its Jacobian determinant is (dx / 2)(dy / 2) at quadrature point q. */
  lemma RectangleDet(x: Matrix, x0: real, y0: real, dx: real, dy: real, q: nat)
    requires RectangleCorners(x, x0, y0, dx, dy) && q < 4
    ensures IsMatrix(x, 4, 2)
    ensures PointDet(x, q) == (dx / 2.0) * (dy / 2.0)
  {
    RectangleIsAffine(x, x0, y0, dx, dy);
    AffineJacobian(x, dx / 2.0, 0.0, x0 + dx / 2.0, 0.0, dy / 2.0, y0 + dy / 2.0, GaussPoints()[q].0, GaussPoints()[q].1);
  }

  /** A rectangle with positive sides has no degenerate quadrature point. */
  lemma RectangleNotDegenerate(x: Matrix, x0: real, y0: real, dx: real, dy: real)
    requires RectangleCorners(x, x0, y0, dx, dy) && dx > 0.0 && dy > 0.0
    ensures IsMatrix(x, 4, 2) && !Degenerate(x, 4)
  {
    assert (dx / 2.0) * (dy / 2.0) > 0.0;
    forall q | 0 <= q < 4
      ensures PointDet(x, q) > 0.0
    {
      RectangleDet(x, x0, y0, dx, dy, q);
    }
  }

  /** The load b a at every corner in each direction. */
  function EqualShares(b: (real, real), a: real): (f: seq<real>)
    ensures |f| == 8
  {
    [b.0 * a, b.1 * a, b.0 * a, b.1 * a, b.0 * a, b.1 * a, b.0 * a, b.1 * a]
  }

  /** Four shares that scale numbers summing to one add up to the scale. */
  lemma ScaledSum(a0: real, a1: real, a2: real, a3: real, c: real, d: real, t0: real, t1: real, t2: real, t3: real)
    requires a0 + a1 + a2 + a3 == 1.0
    requires t0 == Share(1.0, a0, c, d) && t1 == Share(1.0, a1, c, d) && t2 == Share(1.0, a2, c, d) && t3 == Share(1.0, a3, c, d)
    ensures t0 + t1 + t2 + t3 == c * d
  {
    assert a0 * c * d + a1 * c * d + a2 * c * d + a3 * c * d == (a0 + a1 + a2 + a3) * (c * d);
  }

  /** Four vectors whose entries add up to those of e sum to e. */
  lemma FourVectorSum(S0: seq<real>, S1: seq<real>, S2: seq<real>, S3: seq<real>, e: seq<real>)
    requires |S0| == |S1| == |S2| == |S3| == |e| == 8
    requires S0[0] + S1[0] + S2[0] + S3[0] == e[0] && S0[1] + S1[1] + S2[1] + S3[1] == e[1]
    requires S0[2] + S1[2] + S2[2] + S3[2] == e[2] && S0[3] + S1[3] + S2[3] + S3[3] == e[3]
    requires S0[4] + S1[4] + S2[4] + S3[4] == e[4] && S0[5] + S1[5] + S2[5] + S3[5] == e[5]
    requires S0[6] + S1[6] + S2[6] + S3[6] == e[6] && S0[7] + S1[7] + S2[7] + S3[7] == e[7]
    ensures VectorPlus(VectorPlus(VectorPlus(VectorPlus(ZeroVector(8), S0), S1), S2), S3) == e
  {
    var f := VectorPlus(VectorPlus(VectorPlus(VectorPlus(ZeroVector(8), S0), S1), S2), S3);
    assert f[0] == e[0] && f[1] == e[1] && f[2] == e[2] && f[3] == e[3];
    assert f[4] == e[4] && f[5] == e[5] && f[6] == e[6] && f[7] == e[7];
  }

  /** At corner k, the four points' shares in each direction add up to
      b d when the shape values there sum to one. */
  lemma CornerShares(phi0: seq<real>, phi1: seq<real>, phi2: seq<real>, phi3: seq<real>, b: (real, real), d: real, k: nat)
    requires |phi0| == 4 && |phi1| == 4 && |phi2| == 4 && |phi3| == 4 && k < 4
    requires phi0[k] + phi1[k] + phi2[k] + phi3[k] == 1.0
    ensures LoadShares(1.0, phi0, b, d)[2 * k] + LoadShares(1.0, phi1, b, d)[2 * k]
          + LoadShares(1.0, phi2, b, d)[2 * k] + LoadShares(1.0, phi3, b, d)[2 * k] == b.0 * d
    ensures LoadShares(1.0, phi0, b, d)[2 * k + 1] + LoadShares(1.0, phi1, b, d)[2 * k + 1]
          + LoadShares(1.0, phi2, b, d)[2 * k + 1] + LoadShares(1.0, phi3, b, d)[2 * k + 1] == b.1 * d
  {
    var S0, S1 := LoadShares(1.0, phi0, b, d), LoadShares(1.0, phi1, b, d);
    var S2, S3 := LoadShares(1.0, phi2, b, d), LoadShares(1.0, phi3, b, d);
    LoadShareAt(1.0, phi0, b, d, k); LoadShareAt(1.0, phi1, b, d, k);
    LoadShareAt(1.0, phi2, b, d, k); LoadShareAt(1.0, phi3, b, d, k);
    ScaledSum(phi0[k], phi1[k], phi2[k], phi3[k], b.0, d, S0[2 * k], S1[2 * k], S2[2 * k], S3[2 * k]);
    ScaledSum(phi0[k], phi1[k], phi2[k], phi3[k], b.1, d, S0[2 * k + 1], S1[2 * k + 1], S2[2 * k + 1], S3[2 * k + 1]);
  }

  /** Four quadrature points of weight 1 and determinant d whose shape
      values sum to 1 at every corner hand b d to every corner. */
  lemma SharesSum(phi0: seq<real>, phi1: seq<real>, phi2: seq<real>, phi3: seq<real>, b: (real, real), d: real)
    requires |phi0| == 4 && |phi1| == 4 && |phi2| == 4 && |phi3| == 4
    requires phi0[0] + phi1[0] + phi2[0] + phi3[0] == 1.0 && phi0[1] + phi1[1] + phi2[1] + phi3[1] == 1.0
    requires phi0[2] + phi1[2] + phi2[2] + phi3[2] == 1.0 && phi0[3] + phi1[3] + phi2[3] + phi3[3] == 1.0
    ensures VectorPlus(VectorPlus(VectorPlus(VectorPlus(ZeroVector(8), LoadShares(1.0, phi0, b, d)),
              LoadShares(1.0, phi1, b, d)), LoadShares(1.0, phi2, b, d)), LoadShares(1.0, phi3, b, d))
            == EqualShares(b, d)
  {
    var f := VectorPlus(VectorPlus(VectorPlus(VectorPlus(ZeroVector(8), LoadShares(1.0, phi0, b, d)),
               LoadShares(1.0, phi1, b, d)), LoadShares(1.0, phi2, b, d)), LoadShares(1.0, phi3, b, d));
    var S0, S1 := LoadShares(1.0, phi0, b, d), LoadShares(1.0, phi1, b, d);
    var S2, S3 := LoadShares(1.0, phi2, b, d), LoadShares(1.0, phi3, b, d);
    var e := EqualShares(b, d);
    CornerShares(phi0, phi1, phi2, phi3, b, d, 0);
    CornerShares(phi0, phi1, phi2, phi3, b, d, 1);
    CornerShares(phi0, phi1, phi2, phi3, b, d, 2);
    CornerShares(phi0, phi1, phi2, phi3, b, d, 3);
    FourVectorSum(S0, S1, S2, S3, e);
  }

  /** An element whose quadrature points all have the same positive
      determinant d hands b d to every corner in each direction. */
  lemma EqualDetLoad(x: Matrix, b: (real, real), d: real)
    requires IsMatrix(x, 4, 2) && d > 0.0
    requires PointDet(x, 0) == d && PointDet(x, 1) == d && PointDet(x, 2) == d && PointDet(x, 3) == d
    ensures ElementLoadUpTo(x, b, 4) == Ok(EqualShares(b, d))
  {
    var g := GaussCoord;
    var phi0, phi1 := Q4Shape(-g, -g), Q4Shape(g, -g);
    var phi2, phi3 := Q4Shape(g, g), Q4Shape(-g, g);
    var P0, P1, P2, P3 := PointLoad(x, b, 0), PointLoad(x, b, 1), PointLoad(x, b, 2), PointLoad(x, b, 3);
    assert P0 == LoadShares(1.0, phi0, b, d) && P1 == LoadShares(1.0, phi1, b, d);
    assert P2 == LoadShares(1.0, phi2, b, d) && P3 == LoadShares(1.0, phi3, b, d);
    ShapeQuadrature(0);
    ShapeQuadrature(1);
    ShapeQuadrature(2);
    ShapeQuadrature(3);
    SharesSum(phi0, phi1, phi2, phi3, b, d);
    var f1 := VectorPlus(ZeroVector(8), P0);
    var f2 := VectorPlus(f1, P1);
    var f3 := VectorPlus(f2, P2);
    assert ElementLoadUpTo(x, b, 1) == Ok(f1);
    assert ElementLoadUpTo(x, b, 2) == Ok(f2);
    assert ElementLoadUpTo(x, b, 3) == Ok(f3);
  }

  /** A rectangle with positive sides splits the body force over its area
      dx dy equally among its four corners: each receives b dx dy / 4. */
  lemma RectangleLoad(x: Matrix, x0: real, y0: real, dx: real, dy: real, b: (real, real))
    requires RectangleCorners(x, x0, y0, dx, dy) && dx > 0.0 && dy > 0.0
    ensures IsMatrix(x, 4, 2)
    ensures ElementLoadUpTo(x, b, 4) == Ok(EqualShares(b, (dx / 2.0) * (dy / 2.0)))
  {
    var d := (dx / 2.0) * (dy / 2.0);
    assert d > 0.0;
    RectangleDet(x, x0, y0, dx, dy, 0);
    RectangleDet(x, x0, y0, dx, dy, 1);
    RectangleDet(x, x0, y0, dx, dy, 2);
    RectangleDet(x, x0, y0, dx, dy, 3);
    EqualDetLoad(x, b, d);
  }

  /** The grid tables fit together: pairs of coordinates, corners among the nodes. */
  lemma GridTables(m: nat, n: nat, L: real, H: real)
    requires m >= 1 && n >= 1
    ensures MeshTables(GridTopology(m, n), GridCoordinates(m, n, L, H))
  {
    GridCoordinatesArePairs(m, n, L, H);
    GridTopologyWellFormed(m, n);
  }

  /** The grid points at the corners of cell (i, j) lie counterclockwise
      around the rectangle [j dx, (j + 1) dx] x [i dy, (i + 1) dy]. */
  lemma CellPoints(m: nat, n: nat, L: real, H: real, i: nat, j: nat, dx: real, dy: real, x0: real, y0: real)
    requires m >= 1 && n >= 1 && dx == L / m as real && dy == H / n as real
    requires x0 == j as real * dx && y0 == i as real * dy
    ensures GridPoint(m, n, L, H, i, j) == [x0, y0]
    ensures GridPoint(m, n, L, H, i, j + 1) == [x0 + dx, y0]
    ensures GridPoint(m, n, L, H, i + 1, j + 1) == [x0 + dx, y0 + dy]
    ensures GridPoint(m, n, L, H, i + 1, j) == [x0, y0 + dy]
  {
    assert (j + 1) as real * dx == x0 + dx && (i + 1) as real * dy == y0 + dy;
    var p0, p1 := GridPoint(m, n, L, H, i, j), GridPoint(m, n, L, H, i, j + 1);
    var p2, p3 := GridPoint(m, n, L, H, i + 1, j + 1), GridPoint(m, n, L, H, i + 1, j);
    assert p0[0] == x0 && p0[1] == y0 && p1[0] == x0 + dx && p1[1] == y0;
    assert p2[0] == x0 + dx && p2[1] == y0 + dy && p3[0] == x0 && p3[1] == y0 + dy;
  }

  /** A positive length divided into m >= 1 parts gives a positive spacing. */
  lemma PositiveSpacing(L: real, m: nat)
    requires L > 0.0 && m >= 1
    ensures L / m as real > 0.0
  {
  }

  /** Element e of a grid is grid cell (i, j) numbered row by row, and its
      corners are the rectangle [j dx, (j + 1) dx] x [i dy, (i + 1) dy]. */
  lemma CellRectangle(m: nat, n: nat, L: real, H: real, e: nat) returns (i: nat, j: nat)
    requires m >= 1 && n >= 1 && e < m * n
    ensures MeshTables(GridTopology(m, n), GridCoordinates(m, n, L, H))
    ensures i < n && j < m && e == i * m + j
    ensures GridTopology(m, n)[e] == GridCorners(m, i, j)
    ensures RectangleCorners(CornerCoordinates(GridTopology(m, n), GridCoordinates(m, n, L, H), e),
                             j as real * (L / m as real), i as real * (H / n as real), L / m as real, H / n as real)
  {
    GridTables(m, n, L, H);
    var topo, X := GridTopology(m, n), GridCoordinates(m, n, L, H);
    i, j := RowMajorEntry(n, m, CornerTable(m), e);
    assert topo[e] == GridCorners(m, i, j);
    var dx, dy := L / m as real, H / n as real;
    var x0, y0 := j as real * dx, i as real * dy;
    var x := CornerCoordinates(topo, X, e);
    var c := [GridNode(m, i, j), GridNode(m, i, j + 1), GridNode(m, i + 1, j + 1), GridNode(m, i + 1, j)];
    assert topo[e] == c;
    CellPoints(m, n, L, H, i, j, dx, dy, x0, y0);
    GridCoordinatesAt(m, n, L, H, i, j);
    GridCoordinatesAt(m, n, L, H, i, j + 1);
    GridCoordinatesAt(m, n, L, H, i + 1, j + 1);
    GridCoordinatesAt(m, n, L, H, i + 1, j);
    assert x[0] == X[c[0]] && x[1] == X[c[1]] && x[2] == X[c[2]] && x[3] == X[c[3]];
  }

  /** Element e of a grid is a rectangle of sides L / m and H / n. */
  lemma CellIsRectangle(m: nat, n: nat, L: real, H: real, e: nat) returns (x0: real, y0: real)
    requires m >= 1 && n >= 1 && e < m * n
    ensures MeshTables(GridTopology(m, n), GridCoordinates(m, n, L, H))
    ensures RectangleCorners(CornerCoordinates(GridTopology(m, n), GridCoordinates(m, n, L, H), e),
                             x0, y0, L / m as real, H / n as real)
  {
    var i, j := CellRectangle(m, n, L, H, e);
    x0, y0 := j as real * (L / m as real), i as real * (H / n as real);
  }

  /** Element e of a grid over a rectangle with positive sides is a
      rectangle with positive sides, so none of its quadrature points is
      degenerate. */
  lemma CellNotDegenerate(m: nat, n: nat, L: real, H: real, e: nat)
    requires m >= 1 && n >= 1 && L > 0.0 && H > 0.0 && e < m * n
    ensures MeshTables(GridTopology(m, n), GridCoordinates(m, n, L, H))
    ensures !Degenerate(CornerCoordinates(GridTopology(m, n), GridCoordinates(m, n, L, H), e), 4)
  {
    var i, j := CellRectangle(m, n, L, H, e);
    PositiveSpacing(L, m);
    PositiveSpacing(H, n);
    RectangleNotDegenerate(CornerCoordinates(GridTopology(m, n), GridCoordinates(m, n, L, H), e),
                           j as real * (L / m as real), i as real * (H / n as real), L / m as real, H / n as real);
  }

  /** No element of a grid over a rectangle with positive sides is degenerate,
      so the stiffness matrix and the right-hand side of a grid mesh are
      always assembled. */
  lemma GridNotDegenerate(m: nat, n: nat, L: real, H: real, D: Matrix, b: (real, real))
    requires m >= 1 && n >= 1 && L > 0.0 && H > 0.0 && IsSquare(D, 3)
    ensures MeshTables(GridTopology(m, n), GridCoordinates(m, n, L, H))
    ensures !SomeDegenerate(GridTopology(m, n), GridCoordinates(m, n, L, H), m * n)
    ensures GlobalStiffness(GridTopology(m, n), GridCoordinates(m, n, L, H), D).Ok?
    ensures GlobalLoad(GridTopology(m, n), GridCoordinates(m, n, L, H), b).Ok?
  {
    GridTables(m, n, L, H);
    var topo, X := GridTopology(m, n), GridCoordinates(m, n, L, H);
    forall e | 0 <= e < m * n
      ensures !Degenerate(CornerCoordinates(topo, X, e), 4)
    {
      CellNotDegenerate(m, n, L, H, e);
    }
    StiffnessFails(topo, X, D);
    RhsOutcome(topo, X, b);
  }

  /** Each corner's share of one cell of the 2 x 1 grid over [0, L] x [0, H]:
      the quarter of its area L H / 2. */
  lemma TwoCellQuarter(L: real, H: real)
    requires L > 0.0 && H > 0.0
    ensures (L / 2.0 / 2.0) * (H / 2.0) == L * H / 8.0
    ensures L * H / 8.0 > 0.0
  {
  }

  /** An element of any mesh whose corners form a rectangle with positive
      sides gets the equal shares of RectangleLoad. */
  lemma RectangleElementLoad(topo: seq<seq<int>>, X: Matrix, e: nat, x0: real, y0: real, dx: real, dy: real, b: (real, real))
    requires MeshTables(topo, X) && e < |topo| && dx > 0.0 && dy > 0.0
    requires RectangleCorners(CornerCoordinates(topo, X, e), x0, y0, dx, dy)
    ensures ElementLoads(topo, X, b)[e] == Ok(EqualShares(b, (dx / 2.0) * (dy / 2.0)))
  {
    RectangleLoad(CornerCoordinates(topo, X, e), x0, y0, dx, dy, b);
  }

  /** Every cell of a grid over a rectangle with positive sides, of sides
      dx = L / m and dy = H / n, hands the body force times a quarter of its
      area, a = (dx / 2) (dy / 2), to each of its corners in each direction. */
  lemma GridCellLoad(m: nat, n: nat, L: real, H: real, b: (real, real), e: nat, dx: real, dy: real, a: real)
    requires m >= 1 && n >= 1 && L > 0.0 && H > 0.0 && e < m * n
    requires dx == L / m as real && dy == H / n as real && a == (dx / 2.0) * (dy / 2.0)
    ensures MeshTables(GridTopology(m, n), GridCoordinates(m, n, L, H))
    ensures ElementLoads(GridTopology(m, n), GridCoordinates(m, n, L, H), b)[e] == Ok(EqualShares(b, a))
  {
    var x0, y0 := CellIsRectangle(m, n, L, H, e);
    PositiveSpacing(L, m);
    PositiveSpacing(H, n);
    RectangleElementLoad(GridTopology(m, n), GridCoordinates(m, n, L, H), e, x0, y0, dx, dy, b);
  }

  /** The 2 x 1 grid numbers its nodes 0 1 2 along the bottom and 3 4 5
      along the top, and lists its cells counterclockwise from the lower
      left corner. */
  lemma TwoCellTopology(m: nat, n: nat)
    requires m == 2 && n == 1
    ensures |GridTopology(m, n)| == 2
    ensures GridTopology(m, n)[0] == [0, 1, 4, 3] && GridTopology(m, n)[1] == [1, 2, 5, 4]
  {
    GridTopologyAt(m, n, 0, 0);
    GridTopologyAt(m, n, 0, 1);
    assert GridCorners(m, 0, 0) == [0, 1, 4, 3] && GridCorners(m, 0, 1) == [1, 2, 5, 4];
  }

  /** The first cell's loads E = [p, s, ...] added into the zero vector at
      the corrected indices d0 of its corners 0, 1, 4, 3. */
  lemma FirstCellAdd(d0: seq<int>, E: seq<real>, p: real, s: real)
    requires |d0| == 8 && d0[0] == 0 && d0[1] == 1 && d0[2] == 2 && d0[3] == 3 && d0[4] == 8 && d0[5] == 9 && d0[6] == 6 && d0[7] == 7
    requires |E| == 8 && E[0] == p && E[1] == s && E[2] == p && E[3] == s && E[4] == p && E[5] == s && E[6] == p && E[7] == s
    ensures BufferedAdd(ZeroVector(12), d0, E) == [p, s, p, s, 0.0, 0.0, p, s, p, s, 0.0, 0.0]
  {
    assert Distinct(d0);
    BufferedIsSequential(ZeroVector(12), d0, E);
  }

  /** The second cell's loads added at the corrected indices d1 of its
      corners 1, 2, 5, 4: the shared nodes 1 and 4 now hold twice as much. */
  lemma SecondCellAdd(g: seq<real>, d1: seq<int>, E: seq<real>, p: real, s: real)
    requires |g| == 12 && g[0] == p && g[1] == s && g[2] == p && g[3] == s && g[4] == 0.0 && g[5] == 0.0
    requires g[6] == p && g[7] == s && g[8] == p && g[9] == s && g[10] == 0.0 && g[11] == 0.0
    requires |d1| == 8 && d1[0] == 2 && d1[1] == 3 && d1[2] == 4 && d1[3] == 5 && d1[4] == 10 && d1[5] == 11 && d1[6] == 8 && d1[7] == 9
    requires |E| == 8 && E[0] == p && E[1] == s && E[2] == p && E[3] == s && E[4] == p && E[5] == s && E[6] == p && E[7] == s
    ensures BufferedAdd(g, d1, E) == [p, s, 2.0 * p, 2.0 * s, p, s, p, s, 2.0 * p, 2.0 * s, p, s]
  {
    assert Distinct(d1);
    BufferedIsSequential(g, d1, E);
  }

  /** Both cells of the 2 x 1 grid added in turn with the corrected indices. */
  lemma TwoCellFold(d0: seq<int>, d1: seq<int>, E: seq<real>, p: real, s: real)
    requires |d0| == 8 && d0[0] == 0 && d0[1] == 1 && d0[2] == 2 && d0[3] == 3 && d0[4] == 8 && d0[5] == 9 && d0[6] == 6 && d0[7] == 7
    requires |d1| == 8 && d1[0] == 2 && d1[1] == 3 && d1[2] == 4 && d1[3] == 5 && d1[4] == 10 && d1[5] == 11 && d1[6] == 8 && d1[7] == 9
    requires |E| == 8 && E[0] == p && E[1] == s && E[2] == p && E[3] == s && E[4] == p && E[5] == s && E[6] == p && E[7] == s
    ensures BufferedAdd(BufferedAdd(ZeroVector(12), d0, E), d1, E)
            == [p, s, 2.0 * p, 2.0 * s, p, s, p, s, 2.0 * p, 2.0 * s, p, s]
  {
    FirstCellAdd(d0, E, p, s);
    SecondCellAdd([p, s, p, s, 0.0, 0.0, p, s, p, s, 0.0, 0.0], d1, E, p, s);
  }

  /** The first cell's loads at the indices as written, d0: the y-loads of
      corners 0, 1, 4, 3 land on nodes 5, 0, 3, 2. */
  lemma FirstCellAddAsWritten(d0: seq<int>, E: seq<real>, p: real, s: real)
    requires |d0| == 8 && d0[0] == 0 && d0[1] == 11 && d0[2] == 2 && d0[3] == 1 && d0[4] == 8 && d0[5] == 7 && d0[6] == 6 && d0[7] == 5
    requires |E| == 8 && E[0] == p && E[1] == s && E[2] == p && E[3] == s && E[4] == p && E[5] == s && E[6] == p && E[7] == s
    ensures BufferedAdd(ZeroVector(12), d0, E) == [p, s, p, 0.0, 0.0, s, p, s, p, 0.0, 0.0, s]
  {
    assert Distinct(d0);
    BufferedIsSequential(ZeroVector(12), d0, E);
  }

  /** The second cell's loads at the indices as written, d1: the y-loads of
      corners 1, 2, 5, 4 land on nodes 0, 1, 4, 3. */
  lemma SecondCellAddAsWritten(g: seq<real>, d1: seq<int>, E: seq<real>, p: real, s: real)
    requires |g| == 12 && g[0] == p && g[1] == s && g[2] == p && g[3] == 0.0 && g[4] == 0.0 && g[5] == s
    requires g[6] == p && g[7] == s && g[8] == p && g[9] == 0.0 && g[10] == 0.0 && g[11] == s
    requires |d1| == 8 && d1[0] == 2 && d1[1] == 1 && d1[2] == 4 && d1[3] == 3 && d1[4] == 10 && d1[5] == 9 && d1[6] == 8 && d1[7] == 7
    requires |E| == 8 && E[0] == p && E[1] == s && E[2] == p && E[3] == s && E[4] == p && E[5] == s && E[6] == p && E[7] == s
    ensures BufferedAdd(g, d1, E) == [p, 2.0 * s, 2.0 * p, s, p, s, p, 2.0 * s, 2.0 * p, s, p, s]
  {
    assert Distinct(d1);
    BufferedIsSequential(g, d1, E);
  }

  /** Both cells added in turn with the indices as written: the doubled
      y-loads of the shared nodes 1 and 4 land on nodes 0 and 3. */
  lemma TwoCellFoldAsWritten(d0: seq<int>, d1: seq<int>, E: seq<real>, p: real, s: real)
    requires |d0| == 8 && d0[0] == 0 && d0[1] == 11 && d0[2] == 2 && d0[3] == 1 && d0[4] == 8 && d0[5] == 7 && d0[6] == 6 && d0[7] == 5
    requires |d1| == 8 && d1[0] == 2 && d1[1] == 1 && d1[2] == 4 && d1[3] == 3 && d1[4] == 10 && d1[5] == 9 && d1[6] == 8 && d1[7] == 7
    requires |E| == 8 && E[0] == p && E[1] == s && E[2] == p && E[3] == s && E[4] == p && E[5] == s && E[6] == p && E[7] == s
    ensures BufferedAdd(BufferedAdd(ZeroVector(12), d0, E), d1, E)
            == [p, 2.0 * s, 2.0 * p, s, p, s, p, 2.0 * s, 2.0 * p, s, p, s]
  {
    FirstCellAddAsWritten(d0, E, p, s);
    SecondCellAddAsWritten([p, s, p, 0.0, 0.0, s, p, s, p, 0.0, 0.0, s], d1, E, p, s);
  }

  /** The element loads E hand p to x and s to y at each of the four corners. */
  ghost predicate CornerPairs(E: seq<real>, p: real, s: real)
  {
    |E| == 8 && E[0] == p && E[1] == s && E[2] == p && E[3] == s && E[4] == p && E[5] == s && E[6] == p && E[7] == s
  }

  /** EqualShares hands b.0 a to x and b.1 a to y at every corner. */
  lemma EqualSharesPair(b: (real, real), a: real)
    ensures CornerPairs(EqualShares(b, a), b.0 * a, b.1 * a)
  {
  }

  /** The corrected degrees of freedom of the cell with corners 0, 1, 4, 3. */
  lemma FirstCellDofs(c: seq<int>)
    requires c == [0, 1, 4, 3]
    ensures ElementDofs(c) == [0, 1, 2, 3, 8, 9, 6, 7]
  {
  }

  /** The corrected degrees of freedom of the cell with corners 1, 2, 5, 4. */
  lemma SecondCellDofs(c: seq<int>)
    requires c == [1, 2, 5, 4]
    ensures ElementDofs(c) == [2, 3, 4, 5, 10, 11, 8, 9]
  {
  }

  /** The indices as written of the cell 0, 1, 4, 3 on six nodes: the y-load
      of node 0 goes to the last slot, 11. */
  lemma FirstCellDofsAsWritten(c: seq<int>)
    requires c == [0, 1, 4, 3]
    ensures RhsElementDofsAsWritten(c, 12) == [0, 11, 2, 1, 8, 7, 6, 5]
  {
  }

  /** The indices as written of the cell 1, 2, 5, 4 on six nodes. */
  lemma SecondCellDofsAsWritten(c: seq<int>)
    requires c == [1, 2, 5, 4]
    ensures RhsElementDofsAsWritten(c, 12) == [2, 1, 4, 3, 10, 9, 8, 7]
  {
  }

  /** The loads E of the cells 0, 1, 4, 3 and 1, 2, 5, 4 added in turn at
      their corrected degrees of freedom d0 and d1. */
  lemma TwoCellDofsFold(d0: seq<int>, d1: seq<int>, E: seq<real>, p: real, s: real)
    requires d0 == [0, 1, 2, 3, 8, 9, 6, 7] && d1 == [2, 3, 4, 5, 10, 11, 8, 9] && CornerPairs(E, p, s)
    ensures BufferedAdd(BufferedAdd(ZeroVector(12), d0, E), d1, E)
            == [p, s, 2.0 * p, 2.0 * s, p, s, p, s, 2.0 * p, 2.0 * s, p, s]
  {
    TwoCellFold(d0, d1, E, p, s);
  }

  /** The same at the load assembly's indices as written, d0 and d1. */
  lemma TwoCellDofsFoldAsWritten(d0: seq<int>, d1: seq<int>, E: seq<real>, p: real, s: real)
    requires d0 == [0, 11, 2, 1, 8, 7, 6, 5] && d1 == [2, 1, 4, 3, 10, 9, 8, 7] && CornerPairs(E, p, s)
    ensures BufferedAdd(BufferedAdd(ZeroVector(12), d0, E), d1, E)
            == [p, 2.0 * s, 2.0 * p, s, p, s, p, 2.0 * s, 2.0 * p, s, p, s]
  {
    TwoCellFoldAsWritten(d0, d1, E, p, s);
  }

  /** Folding the loads E = [p, s, ...] of two cells with corners 0, 1, 4, 3
      and 1, 2, 5, 4 into six nodes with the corrected indices: the shared
      nodes 1 and 4 receive twice the load of the others. */
  lemma TwoCellFoldsIntended(topo: seq<seq<int>>, Fs: seq<Result<seq<real>>>, E: seq<real>, p: real, s: real)
    requires |topo| == 2 && topo[0] == [0, 1, 4, 3] && topo[1] == [1, 2, 5, 4]
    requires CornerPairs(E, p, s) && |Fs| == 2 && Fs[0] == Ok(E) && Fs[1] == Ok(E)
    ensures InRange(topo, 6) && EightEntries(Fs)
    ensures LoadFold(topo, 6, Fs, 2) == Ok([p, s, 2.0 * p, 2.0 * s, p, s, p, s, 2.0 * p, 2.0 * s, p, s])
  {
    assert InRange(topo, 6);
    LoadFoldStep(topo, 6, Fs, 0, ZeroVector(12), E);
    LoadFoldStep(topo, 6, Fs, 1, BufferedAdd(ZeroVector(12), ElementDofs(topo[0]), E), E);
    FirstCellDofs(topo[0]);
    SecondCellDofs(topo[1]);
    TwoCellDofsFold(ElementDofs(topo[0]), ElementDofs(topo[1]), E, p, s);
  }

  /** The same fold with the load assembly's indices as written: the
      y-loads land one node early, on the node before each corner. */
  lemma TwoCellFoldsAsWritten(topo: seq<seq<int>>, Fs: seq<Result<seq<real>>>, E: seq<real>, p: real, s: real)
    requires |topo| == 2 && topo[0] == [0, 1, 4, 3] && topo[1] == [1, 2, 5, 4]
    requires CornerPairs(E, p, s) && |Fs| == 2 && Fs[0] == Ok(E) && Fs[1] == Ok(E)
    ensures InRange(topo, 6) && EightEntries(Fs)
    ensures LoadFoldAsWritten(topo, 6, Fs, 2) == Ok([p, 2.0 * s, 2.0 * p, s, p, s, p, 2.0 * s, 2.0 * p, s, p, s])
  {
    assert InRange(topo, 6);
    LoadFoldAsWrittenStep(topo, 6, Fs, 0, ZeroVector(12), E);
    LoadFoldAsWrittenStep(topo, 6, Fs, 1, BufferedAdd(ZeroVector(12), RhsElementDofsAsWritten(topo[0], 12), E), E);
    FirstCellDofsAsWritten(topo[0]);
    SecondCellDofsAsWritten(topo[1]);
    TwoCellDofsFoldAsWritten(RhsElementDofsAsWritten(topo[0], 12), RhsElementDofsAsWritten(topo[1], 12), E, p, s);
  }

  /** The two right-hand sides of the 2 x 1 grid agree exactly when the
      y-loads s vanish. */
  lemma TwoCellVectorsDiffer(p: real, s: real)
    ensures ([p, 2.0 * s, 2.0 * p, s, p, s, p, 2.0 * s, 2.0 * p, s, p, s]
             == [p, s, 2.0 * p, 2.0 * s, p, s, p, s, 2.0 * p, 2.0 * s, p, s]) <==> s == 0.0
  {
    var intended := [p, s, 2.0 * p, 2.0 * s, p, s, p, s, 2.0 * p, 2.0 * s, p, s];
    var asWritten := [p, 2.0 * s, 2.0 * p, s, p, s, p, 2.0 * s, 2.0 * p, s, p, s];
    if s != 0.0 {
      assert asWritten[1] != intended[1];
    }
  }

  /** The right-hand side, corrected and as written, of any six-node mesh of
      two cells with corners 0, 1, 4, 3 and 1, 2, 5, 4 that each hand the
      loads E = [p, s, ...] to their corners. */
  lemma TwoCellsRhsOn(topo: seq<seq<int>>, X: Matrix, b: (real, real), E: seq<real>, p: real, s: real)
    requires MeshTables(topo, X) && |X| == 6
    requires |topo| == 2 && topo[0] == [0, 1, 4, 3] && topo[1] == [1, 2, 5, 4]
    requires CornerPairs(E, p, s)
    requires ElementLoads(topo, X, b)[0] == Ok(E) && ElementLoads(topo, X, b)[1] == Ok(E)
    requires b.0 == 0.0 && b.1 == 0.0 ==> p == 0.0 && s == 0.0
    ensures GlobalLoad(topo, X, b) == Ok([p, s, 2.0 * p, 2.0 * s, p, s, p, s, 2.0 * p, 2.0 * s, p, s])
    ensures GlobalLoadAsWritten(topo, X, b) == Ok([p, 2.0 * s, 2.0 * p, s, p, s, p, 2.0 * s, 2.0 * p, s, p, s])
    ensures (GlobalLoadAsWritten(topo, X, b) == GlobalLoad(topo, X, b)) <==> s == 0.0
  {
    TwoCellVectorsDiffer(p, s);
    if b.0 == 0.0 && b.1 == 0.0 {
      assert ZeroVector(12) == [p, s, 2.0 * p, 2.0 * s, p, s, p, s, 2.0 * p, 2.0 * s, p, s];
      assert ZeroVector(12) == [p, 2.0 * s, 2.0 * p, s, p, s, p, 2.0 * s, 2.0 * p, s, p, s];
    } else {
      var Fs := ElementLoads(topo, X, b);
      TwoCellFoldsIntended(topo, Fs, E, p, s);
      TwoCellFoldsAsWritten(topo, Fs, E, p, s);
    }
  }

  /** The 2 x 1 grid with cells of sides dx = L / 2 and dy = H: six nodes,
      cells 0, 1, 4, 3 and 1, 2, 5, 4, each handing b a, a = (dx / 2) (dy / 2),
      to every corner. */
  lemma TwoCellGrid(m: nat, n: nat, L: real, H: real, b: (real, real), dx: real, dy: real, a: real)
    requires m == 2 && n == 1 && L > 0.0 && H > 0.0 && dx == L / 2.0 && dy == H
    requires a == (dx / 2.0) * (dy / 2.0)
    ensures MeshTables(GridTopology(m, n), GridCoordinates(m, n, L, H))
    ensures |GridCoordinates(m, n, L, H)| == 6
    ensures |GridTopology(m, n)| == 2
    ensures GridTopology(m, n)[0] == [0, 1, 4, 3] && GridTopology(m, n)[1] == [1, 2, 5, 4]
    ensures ElementLoads(GridTopology(m, n), GridCoordinates(m, n, L, H), b)[0] == Ok(EqualShares(b, a))
    ensures ElementLoads(GridTopology(m, n), GridCoordinates(m, n, L, H), b)[1] == Ok(EqualShares(b, a))
  {
    GridCellLoad(m, n, L, H, b, 0, dx, dy, a);
    GridCellLoad(m, n, L, H, b, 1, dx, dy, a);
    TwoCellTopology(m, n);
  }

  /** The right-hand side of the 2 x 1 grid, whose cells have sides dx = L / 2
      and dy = H, with the corrected indices and as written: every corner
      receives [p, s] = b a, a = (dx / 2) (dy / 2), from each of its cells. */
  lemma TwoCellsRhs(m: nat, n: nat, L: real, H: real, b: (real, real), dx: real, dy: real, a: real, p: real, s: real)
    requires m == 2 && n == 1 && L > 0.0 && H > 0.0 && dx == L / 2.0 && dy == H
    requires a == (dx / 2.0) * (dy / 2.0) && p == b.0 * a && s == b.1 * a
    ensures MeshTables(GridTopology(m, n), GridCoordinates(m, n, L, H))
    ensures GlobalLoad(GridTopology(m, n), GridCoordinates(m, n, L, H), b)
            == Ok([p, s, 2.0 * p, 2.0 * s, p, s, p, s, 2.0 * p, 2.0 * s, p, s])
    ensures GlobalLoadAsWritten(GridTopology(m, n), GridCoordinates(m, n, L, H), b)
            == Ok([p, 2.0 * s, 2.0 * p, s, p, s, p, 2.0 * s, 2.0 * p, s, p, s])
    ensures (GlobalLoadAsWritten(GridTopology(m, n), GridCoordinates(m, n, L, H), b)
             == GlobalLoad(GridTopology(m, n), GridCoordinates(m, n, L, H), b)) <==> s == 0.0
  {
    EqualSharesPair(b, a);
    var E := EqualShares(b, a);
    assert CornerPairs(E, p, s);
    assert b.0 == 0.0 && b.1 == 0.0 ==> p == 0.0 && s == 0.0;
    TwoCellGrid(m, n, L, H, b, dx, dy, a);
    TwoCellsRhsOn(GridTopology(m, n), GridCoordinates(m, n, L, H), b, E, p, s);
  }

  /** A y-load b.1 a with a > 0 vanishes only when b.1 does. */
  lemma ScaledZero(c: real, a: real)
    requires a > 0.0
    ensures c * a == 0.0 <==> c == 0.0
  {
    if c * a == 0.0 {
      assert c == c * a / a;
    }
  }

  /** AsWrittenTwoCells for grid sizes m = 2 and n = 1 given as variables. */
  lemma TwoCellGridRhs(m: nat, n: nat, L: real, H: real, b: (real, real))
    requires m == 2 && n == 1 && L > 0.0 && H > 0.0
    ensures MeshTables(GridTopology(m, n), GridCoordinates(m, n, L, H))
    ensures var p, s := b.0 * (L * H / 8.0), b.1 * (L * H / 8.0);
      GlobalLoad(GridTopology(m, n), GridCoordinates(m, n, L, H), b)
        == Ok([p, s, 2.0 * p, 2.0 * s, p, s, p, s, 2.0 * p, 2.0 * s, p, s])
      && GlobalLoadAsWritten(GridTopology(m, n), GridCoordinates(m, n, L, H), b)
        == Ok([p, 2.0 * s, 2.0 * p, s, p, s, p, 2.0 * s, 2.0 * p, s, p, s])
    ensures (GlobalLoadAsWritten(GridTopology(m, n), GridCoordinates(m, n, L, H), b)
             == GlobalLoad(GridTopology(m, n), GridCoordinates(m, n, L, H), b)) <==> b.1 == 0.0
  {
    TwoCellQuarter(L, H);
    TwoCellsRhs(m, n, L, H, b, L / 2.0, H, L * H / 8.0, b.0 * (L * H / 8.0), b.1 * (L * H / 8.0));
    ScaledZero(b.1, L * H / 8.0);
  }

  /** On the 2 x 1 grid over [0, L] x [0, H] under the body force b, with
      p = b.0 L H / 8 and s = b.1 L H / 8, the right-hand side gives the
      shared nodes 1 and 4 twice the load of the others. As written it gives
      the doubled y-load to nodes 0 and 3 instead, so the two differ exactly
      when b has a y-component. */
  lemma AsWrittenTwoCells(L: real, H: real, b: (real, real))
    requires L > 0.0 && H > 0.0
    ensures MeshTables(GridTopology(2, 1), GridCoordinates(2, 1, L, H))
    ensures var p, s := b.0 * (L * H / 8.0), b.1 * (L * H / 8.0);
      GlobalLoad(GridTopology(2, 1), GridCoordinates(2, 1, L, H), b)
        == Ok([p, s, 2.0 * p, 2.0 * s, p, s, p, s, 2.0 * p, 2.0 * s, p, s])
      && GlobalLoadAsWritten(GridTopology(2, 1), GridCoordinates(2, 1, L, H), b)
        == Ok([p, 2.0 * s, 2.0 * p, s, p, s, p, 2.0 * s, 2.0 * p, s, p, s])
    ensures (GlobalLoadAsWritten(GridTopology(2, 1), GridCoordinates(2, 1, L, H), b)
             == GlobalLoad(GridTopology(2, 1), GridCoordinates(2, 1, L, H), b)) <==> b.1 == 0.0
  {
    TwoCellGridRhs(2, 1, L, H, b);
  }

}

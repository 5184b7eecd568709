# j-fea core in Dafny

This project models j-fea, a small two-dimensional linear-elastic finite
element program. The modelled core covers:

- the bilinear four-node quadrilateral (Q4) shape functions and the 2 x 2 Gauss rule;
- the isotropic material and its plane-strain and plane-stress constitutive matrices;
- the mesh: the structured grid generator, the boundary-node extraction and the element and node counts;
- assembly of the global stiffness matrix and the global right-hand side by Gauss quadrature element by element;
- the choice of Dirichlet degrees of freedom among the boundary nodes and their in-place elimination from the system `K u = f`.

The program works on floating-point numbers. The model works on `real`, so every
equation below is exact arithmetic. Node `i` carries the degrees of freedom
`2 i` (x) and `2 i + 1` (y).

Modules, by file:

- `matrices.dfy` (`Matrices`): matrices as `seq<seq<real>>`, snapshots of `array2`.
- `sums.dfy` (`Sums`): finite sums and their algebra. Every matrix product and scatter-add rests on them.
- `shape.dfy` (`Shape`): `q4shape`, `q4gradient` and the Gauss tables.
- `material.dfy` (`Materials`): `Material` and the two constitutive matrices.
- `mesh.dfy` (`Meshes`): class `Mesh` over two `array2` tables; `grid_mesh`, `boundary`, `n_elements` and `n_nodes`.
- `grid_boundary.dfy` (`GridBoundary`): the boundary of a grid mesh is exactly its perimeter.
- `dofs.dfy` (`Dofs`): the degree-of-freedom numbering, and the load assembly's numbering as written.
- `element.dfy` (`Elements`): the Jacobian, B, and the element stiffness and load by quadrature.
- `assembly.dfy` (`Assembly`): the global stiffness matrix and right-hand side, as loops over the mesh.
- `dirichlet.dfy` (`Dirichlet`): classification of the boundary degrees of freedom and their enforcement.

A quadrature point whose Jacobian determinant is not positive raises
`ValueError` in the program. The model returns `Fail(JacobianError)` there.
Both global assemblies are proved against specification folds over the
elements (`Assembly.GlobalStiffness`, `Assembly.GlobalLoad`). The properties of
those folds are then proved as lemmas. On a structured grid over a rectangle
with positive sides no element is degenerate, so both assemblies succeed
(`Assembly.GridNotDegenerate`).

## Model

| member | source | states |
|---|---|---|
| Shape.GaussPoints | fea/shape.py:9-12 | the four points are the reference corners, counterclockwise from (-1,-1), scaled by the decimal 0.5773502691896257 |
| Shape.GaussWeights | fea/shape.py:14 | four weights of 1.0, summing to the area 4 of the reference square |
| Shape.Q4Shape | fea/shape.py:31-38 | the four shape values form a partition of unity |
| Shape.Q4Gradient | fea/shape.py:17-28 | each row of the 2 x 4 gradient table sums to zero |
| Shape.ShapeKronecker | fea/shape.py:31-38 | phi_k is 1 at reference corner k and 0 at the other three |
| Shape.AffineReproduction | fea/shape.py:31-38 | interpolating the corner values of an affine field reproduces that field exactly |
| Shape.GradientReproduction | fea/shape.py:17-28 | the interpolated gradient of an affine field is its exact gradient |
| Shape.XiDerivative | fea/shape.py:20-23 | row 0 of the gradient table is the exact xi-derivative of the shape functions |
| Shape.EtaDerivative | fea/shape.py:24-27 | row 1 of the gradient table is the exact eta-derivative of the shape functions |
| Shape.ShapeQuadrature | fea/shape.py:9-14 | the 2 x 2 Gauss rule integrates each shape function over the reference square to 1, a quarter of its area |
| Materials.NewMaterial | fea/material.py:14-16 | the material keeps E and nu as given; the defaults are 200e9 and 0.28 |
| Materials.PlaneStrainMatrix | fea/material.py:18-26 | symmetric 3 x 3 with no normal-shear coupling; D22 = G, D01 = lame, D00 = D11 = 2 G + lame |
| Materials.PlaneStrainDiagonal | fea/material.py:21-23 | D00 = E (1 - nu) / ((1 + nu)(1 - 2 nu)) |
| Materials.PlaneStrainPositiveDiagonal | fea/material.py:18-26 | for E > 0 and -1 < nu < 1/2 the diagonal is positive |
| Materials.PlaneStressMatrixAsWritten | fea/material.py:28-35 | the plane-stress matrix as written: D00 = E / (1 - nu^2), D01 = nu D00, D22 = (1 + nu) D00 |
| Materials.AsWrittenShear | fea/material.py:34 | as written, D22 equals E / (1 - nu) |
| Materials.PlaneStressShearDiscrepancy | fea/material.py:34 | as written, D22 equals the shear modulus only when E = 0 or nu = -1/3 |
| Materials.PlaneStressMatrix | fea/material.py:28-35 | corrected plane stress: same D00 and D01, and D22 is the shear modulus G |
| Materials.CorrectedShear | fea/material.py:31-34 | D00 (1 - nu) / 2 equals E / (2 (1 + nu)) |
| Materials.PlaneStressPositiveDiagonal | fea/material.py:28-35 | for E > 0 and -1 < nu < 1 the corrected matrix has a positive diagonal |
| Materials.ConstitutiveMatrix | fea/assembly.py:53-56 | the selected matrix is symmetric and uncoupled, and its shear entry is G; for plane stress this is the corrected entry (see Left out) |
| Meshes.Mesh.constructor | fea/mesh.py:14-17 | the mesh keeps the coordinate and topology tables it is given |
| Meshes.Mesh.NElements | fea/mesh.py:60-62 | the number of rows of the topology table |
| Meshes.Mesh.NNodes | fea/mesh.py:64-66 | the number of rows of the coordinate table |
| Meshes.Mesh.GridMesh | fea/mesh.py:37-58 | m n elements and (m + 1)(n + 1) nodes; tables equal to the row-major grid; every corner is a node |
| Meshes.FillGridTopology | fea/mesh.py:40-48 | the loop fills the topology table with the grid's corner numbers |
| Meshes.FillGridCoordinates | fea/mesh.py:49-57 | the loop fills node k = i (m + 1) + j with (j dx, i dy) |
| Meshes.GridCornerNumbers | fea/mesh.py:44-47 | cell (i, j) is element i m + j, with corners i(m+1)+j, +1, (i+1)(m+1)+j+1, (i+1)(m+1)+j |
| Meshes.GridPointNumbers | fea/mesh.py:53-57 | node i(m+1)+j is at (j dx, i dy) with dx = L/m and dy = H/n |
| Meshes.GridTopologyWellFormed | fea/mesh.py:40-48 | every grid corner is a node, and the four corners of a cell are distinct |
| Meshes.ElementEdges | fea/mesh.py:23-25 | side c of an element joins corners c and (c + 1) mod 4, keyed with the smaller node first |
| Meshes.EdgeKeyUndirected | fea/mesh.py:25 | the key of a side does not depend on its direction and has exactly its two ends |
| Meshes.Mesh.CountEdges | fea/mesh.py:21-29 | the dictionary counts how often each side occurs over all elements; the key list names each counted side exactly once |
| Meshes.OnceEndpointsAreBoundary | fea/mesh.py:30-33 | the ends of the sides counted once are exactly the boundary nodes |
| Meshes.Unique | fea/mesh.py:34-35 | the result is strictly increasing and has the same members as its input |
| Meshes.Mesh.Boundary | fea/mesh.py:19-35 | strictly increasing nodes, each one an end of a side used by exactly one element |
| GridBoundary.GridBoundaryIsPerimeter | fea/mesh.py:19-58 | on an m x n grid the boundary nodes are exactly the nodes on the outer rows and columns |
| GridBoundary.HorizontalEdgeCount | fea/mesh.py:21-29 | a horizontal grid side occurs once on the outer rows and twice inside |
| GridBoundary.VerticalEdgeCount | fea/mesh.py:21-29 | a vertical grid side occurs once on the outer columns and twice inside |
| Dofs.DofRoundTrip | fea/assembly.py:84-86 | node and component come back from a degree of freedom by halving |
| Dofs.DofInjective | fea/assembly.py:84-86 | distinct (node, component) pairs have distinct degrees of freedom |
| Dofs.ElementDofsMembership | fea/assembly.py:83-86 | p is among an element's degrees of freedom exactly when node p / 2 is one of its corners |
| Dofs.ElementDofsInRange | fea/assembly.py:83-86 | the eight indices are valid exactly when the four corners are nodes |
| Dofs.ElementDofsDistinct | fea/assembly.py:83-86 | the eight indices are distinct exactly when the four corners are |
| Dofs.AsWrittenShiftsYLoads | fea/assembly.py:41-43 | as written, node i's y-load goes to the y slot of node i - 1, and node 0's to the last node's |
| Dofs.AsWrittenMisplacesYLoads | fea/assembly.py:42 | as written, every y-load is misplaced once the mesh has two nodes |
| Dofs.AsWrittenSingleCell | fea/assembly.py:39-43 | on a 1 x 1 grid the as-written indices are [0,7,2,1,6,5,4,3] instead of [0,1,2,3,6,7,4,5] ; every corner of that single cell gets the same load, so there the permutation leaves the right-hand side unchanged (`Assembly.AsWrittenTwoCells` shows a grid where it does not) |
| Dofs.AsWrittenDistinct | fea/assembly.py:39-43 | even as written, the eight indices are distinct and valid |
| Dofs.AsWrittenInRange | fea/assembly.py:39-43 | as written, after numpy reads the index -1 of node 0 as the last slot, all eight indices address the 2 n_nodes vector |
| Elements.JacobianXiDerivative | fea/assembly.py:29-31 | `jac = dphi @ x`: row 0 of the Jacobian is the exact rate of change of the isoparametric map along xi |
| Elements.JacobianEtaDerivative | fea/assembly.py:69-71 | row 1 of the Jacobian is the exact rate of change of the isoparametric map along eta |
| Elements.Det2Singular | fea/assembly.py:32-33 | the determinant (np.linalg.det) is 0 exactly when the Jacobian sends some non-zero vector to zero |
| Elements.AffineJacobian | fea/assembly.py:29-31 | on an affinely mapped element the Jacobian is the map's constant matrix at every point |
| Elements.Cramer | fea/assembly.py:75 | the 2 x 2 solve returns the one solution of the system, both directions |
| Elements.SolveCharacterised | fea/assembly.py:75 | dphi_dx solves jac * dphi_dx = dphi exactly when it is the computed solution |
| Elements.StrainDisplacement | fea/assembly.py:76-79 | the B array equals the strain-displacement matrix of the gradients |
| Elements.StrainOfDisplacements | fea/assembly.py:76-79 | B u gives the normal strains and the engineering shear strain of the nodal displacements u |
| Elements.TranslationIsStrainFree | fea/assembly.py:76-79 | a rigid translation produces zero strain |
| Elements.CongruenceSymmetric | fea/assembly.py:80 | B^T D B is symmetric when D is |
| Elements.ElementStiffnessOutcome | fea/assembly.py:65-80 | the element stiffness fails exactly when some quadrature point has det <= 0; otherwise it is 8 x 8 and symmetric for symmetric D |
| Elements.ElementStiffness | fea/assembly.py:65-80 | the quadrature loop computes the specification sum over the four points, or the error |
| Elements.QuadraturePointStiffness | fea/assembly.py:68-80 | one point's determinant, and its term w B^T D B det when det > 0 |
| Elements.ElementLoadOutcome | fea/assembly.py:24-36 | the element load fails exactly when some quadrature point has det <= 0 |
| Elements.PointLoadTotals | fea/assembly.py:35-36 | each point hands out exactly b w det in x and in y, split by the shape values |
| Elements.ElementLoad | fea/assembly.py:24-36 | the quadrature loop computes the specification load of the element, or the error |
| Elements.QuadraturePointLoad | fea/assembly.py:26-36 | one point's determinant, and its load shares when det > 0 |
| Assembly.ScatterStiffness | fea/assembly.py:87-89 | the double loop adds Ke to the global matrix on the element's rows and columns |
| Assembly.ScatterSymmetric | fea/assembly.py:87-89 | scattering a symmetric Ke into a symmetric matrix keeps it symmetric |
| Assembly.ContributionAtDofs | fea/assembly.py:87-89 | with distinct indices, entry (dofs[j], dofs[k]) receives exactly Ke[j][k] |
| Assembly.ContributionOutsideRow | fea/assembly.py:87-89 | a row that is not one of the element's indices receives nothing |
| Assembly.ContributionOutsideColumn | fea/assembly.py:87-89 | a column that is not one of the element's indices receives nothing |
| Assembly.GlobalStiffness | fea/assembly.py:58-91 | the specification of the assembly: start from zero, scatter the element matrices in mesh order, stop at the first failing element; a result is 2 n_nodes square |
| Assembly.FoldFails | fea/assembly.py:61-74 | the assembly fails exactly when some element fails, with that element's error |
| Assembly.StiffnessFails | fea/assembly.py:48-91 | the global stiffness fails exactly when some element has a degenerate quadrature point |
| Assembly.StiffnessShape | fea/assembly.py:48-91 | the global stiffness is 2 n_nodes square and symmetric; rows and columns of nodes in no element are zero |
| Assembly.FoldApart | fea/assembly.py:60-89 | an entry stays zero as long as no element has both of its nodes as corners |
| Assembly.StiffnessSparsity | fea/assembly.py:60-89 | in the global stiffness, an entry whose two nodes share no element is zero |
| Assembly.StiffnessMatrix | fea/assembly.py:48-91 | succeeds exactly when the specification assembly does; the array then equals it; else the Jacobian error (plane stress with the corrected shear entry, see Left out) |
| Assembly.AddElementStiffness | fea/assembly.py:62-89 | one loop iteration advances the specification fold by one element, or establishes the global error |
| Assembly.PackDofs | fea/assembly.py:83-86 | the packed index array is the element's eight degrees of freedom |
| Assembly.GatherCorners | fea/assembly.py:66 | the 4 x 2 corner table of element e |
| Assembly.BufferedAddDistinct | fea/assembly.py:43 | numpy's `g[dofs] += f` with distinct indices adds f[l] at dofs[l] and leaves the rest |
| Assembly.BufferedIsSequential | fea/assembly.py:43 | with distinct indices the buffered add equals adding the entries one after the other |
| Assembly.GlobalLoad | fea/assembly.py:13-45 | the specification of the right-hand side: zero for a zero force, otherwise element loads added in mesh order, stopping at the first failing element; a result has 2 n_nodes entries |
| Assembly.LoadFoldFails | fea/assembly.py:20-43 | the load assembly fails exactly when some element fails, with that element's error |
| Assembly.RhsOutcome | fea/assembly.py:13-45 | fails only for a non-zero force on a mesh with a degenerate point; a zero force gives the zero vector |
| Assembly.RhsShape | fea/assembly.py:13-45 | the vector has 2 n_nodes entries; nodes in no element get 0 |
| Assembly.RhsVector | fea/assembly.py:13-45 | the loop computes the specification right-hand side, with y-loads at 2 i + 1 |
| Assembly.AddElementLoad | fea/assembly.py:21-43 | one loop iteration advances the specification load fold by one element, or establishes the error |
| Assembly.GlobalLoadAsWritten | fea/assembly.py:13-45 | the right-hand side as the source computes it, with y-loads at `2 i - 1` read the numpy way; a result has 2 n_nodes entries |
| Assembly.RectangleDet | fea/assembly.py:29-32 | on a rectangle of sides dx, dy every quadrature point has det = (dx / 2)(dy / 2) |
| Assembly.RectangleNotDegenerate | fea/assembly.py:32-34 | a rectangle with positive sides never raises the determinant error |
| Assembly.SharesSum | fea/assembly.py:26-36 | four points of weight 1 and equal det d whose shape values sum to 1 at every corner hand b d to every corner |
| Assembly.EqualDetLoad | fea/assembly.py:24-36 | an element whose four points share the determinant d > 0 has the load b d at every corner in each direction |
| Assembly.RectangleLoad | fea/assembly.py:24-36 | a rectangle of sides dx, dy > 0 hands each corner a quarter of b dx dy |
| Assembly.CellRectangle | fea/mesh.py:37-58 | grid element e is cell (i, j) with e = i m + j, and its corners are the rectangle [j dx, (j + 1) dx] x [i dy, (i + 1) dy] counterclockwise |
| Assembly.CellNotDegenerate | fea/mesh.py:37-58 | no quadrature point of a cell of a grid over L, H > 0 is degenerate |
| Assembly.GridNotDegenerate | fea/mesh.py:37-58 | for L, H > 0 no grid element is degenerate, so the stiffness matrix and the right-hand side of a grid mesh are always assembled (Ok) |
| Assembly.GridCellLoad | fea/assembly.py:24-36 | every cell of a grid over L, H > 0 hands b (dx / 2)(dy / 2) to each corner in each direction |
| Assembly.TwoCellTopology | fea/mesh.py:40-48 | the 2 x 1 grid has the cells [0, 1, 4, 3] and [1, 2, 5, 4] |
| Assembly.TwoCellFoldsIntended | fea/assembly.py:38-43 | with the corrected indices, two cells handing [p, s] to each corner give the shared nodes 1 and 4 twice the load of the others |
| Assembly.TwoCellFoldsAsWritten | fea/assembly.py:38-43 | as written, the same loads give [p, 2s, 2p, s, p, s, p, 2s, 2p, s, p, s]: the doubled y-loads land on nodes 0 and 3 |
| Assembly.TwoCellsRhsOn | fea/assembly.py:13-45 | on such a two-cell mesh both right-hand sides are those vectors, and they agree exactly when s = 0 |
| Assembly.AsWrittenTwoCells | fea/assembly.py:13-45 | on the 2 x 1 grid over L, H > 0, p = b_x L H / 8 and s = b_y L H / 8: the corrected and as-written right-hand sides, which agree exactly when b_y = 0 |
| Dirichlet.SelectMembership | __main__.py:27-33 | a degree of freedom is chosen exactly when it is the right component of a boundary node with the right coordinate |
| Dirichlet.SelectIncreasing | __main__.py:27-33 | increasing boundary nodes give increasing constrained degrees of freedom |
| Dirichlet.ClassificationOverlap | __main__.py:27-33 | the corner at the origin is fixed in both directions; bottom and top share nothing when H is not 0 |
| Dirichlet.Classify | __main__.py:24-33 | the loop builds exactly the left, bottom and top lists |
| Dirichlet.EnforceConstrains | __main__.py:42-45 | after elimination, equation dof reads u[dof] = v; nothing else changes but f[i] -= v K[dof][i] |
| Dirichlet.EnforceKeepsSymmetry | __main__.py:44-45 | elimination keeps K symmetric |
| Dirichlet.EnforceKeepsEarlier | __main__.py:41-50 | eliminating another degree of freedom keeps an earlier constraint intact |
| Dirichlet.EnforceIdempotent | __main__.py:42-45 | eliminating an already constrained degree of freedom changes nothing |
| Dirichlet.ConstrainedSolution | __main__.py:41-53 | every solution of the eliminated system has u[dof] = v |
| Dirichlet.EnforcePreservesResidual | __main__.py:42-45 | for symmetric K and u[dof] = v, every other equation's residual is unchanged |
| Dirichlet.Enforce | __main__.py:42-45 | the in-place elimination produces exactly the specified K and f |
| Dirichlet.EnforcedAllConstrains | __main__.py:41-50 | after a loop every listed dof is constrained, and earlier constraints on unlisted dofs survive |
| Dirichlet.EnforcedAllSymmetric | __main__.py:41-50 | a loop of eliminations keeps K symmetric |
| Dirichlet.EnforceAll | __main__.py:41-45 | the loop over a list of degrees of freedom equals the specification |
| Dirichlet.ApplyBoundaryConditions | __main__.py:41-50 | bottom and left are eliminated to 0, then top to the prescribed value |
| Dirichlet.BoundaryConditionsHold | __main__.py:41-50 | top dofs end at vTop; other bottom and left dofs end at 0; symmetry of K is kept |

## Left out

- Floating point: the model computes in exact `real`. Rounding, overflow and NaN are not modelled. The Gauss coordinate is the exact decimal written in the source, not 1/sqrt(3).
- `np.linalg.det` and `np.linalg.solve` on the 2 x 2 Jacobian are modelled by their closed forms: the determinant formula and Cramer's rule.
- Elements.ElementLoad: the total of an element's load is proved per quadrature point only (`Elements.PointLoadTotals`), not summed over the whole element.
- `np.isclose` in the classification is modelled as exact equality of coordinates.
- The classification's top height (4e-2) and the top's prescribed value (1e-6, `vTop`) are parameters. Bottom and left are eliminated to the literal 0.0, as in the source.
- The concrete run in `main` is not modelled: the 4 x 16 grid, the steel material, the zero body force, the dense solve `np.linalg.solve(K, f)` and `print`.
- Assembly.RhsVector: the global right-hand side is kept as a value (`seq<real>`) rewritten at each element, not as an array updated in place. It also puts y-loads at the corrected index `2 i + 1`, not the source's `2 i - 1` (first Findings row). The numbering as written is modelled separately in `Dofs`.
- Materials.ConstitutiveMatrix: with planeStress it selects the corrected plane-stress matrix, whose shear entry is G. The source's `plane_stress_matrix` has E / (1 - nu) there (second Findings row), modelled separately as `Materials.PlaneStressMatrixAsWritten`.
- Assembly.StiffnessMatrix: with planeStress, the default, it assembles with the corrected shear entry G from `Materials.ConstitutiveMatrix`. The source assembles with E / (1 - nu), so the shear-coupled entries of its K differ from the model's. Its plane-strain path matches the source.
- Numpy's vectorised row and column updates in the enforcement become explicit loops with the same effect.
- Topology entries that are negative or out of range (numpy would wrap or raise) are excluded by `Mesh.Valid`. Python's `ValueError` is modelled as the `Fail` result.
- Meshes.Mesh.GridMesh: requires m >= 1 and n >= 1. With a zero count the source divides by zero, so the model rules that input out.
- The 32-bit width of the topology array is not modelled; node numbers are unbounded integers.
- Assembly.GlobalLoad: follows numpy's buffered `f_global[dofs] += f`, where a repeated index keeps only its last update. For the distinct indices of a valid element this is the ordinary sum (`Assembly.BufferedIsSequential`).
- Enforcement subtracts `v` times ROW `dof` of K from f, as the code does. The column would be the textbook choice. The two agree when K is symmetric, and `Assembly.StiffnessShape` proves that the assembled K is symmetric.

## Findings

| source | as written | input that shows it | evidently intended | confidence | as-written member | corrected member |
|---|---|---|---|---|---|---|
| fea/assembly.py:42 | the y-load of corner i goes to index `2*i - 1` | a 2 x 1 grid over [0, L] x [0, H] (elements [0,1,4,3] and [1,2,5,4]) under a body force b with b_y != 0, s = b_y L H / 8: the y-entries of the right-hand side are [2s, s, s, 2s, s, s] instead of [s, 2s, s, s, 2s, s] | `2*i + 1`, as the stiffness assembly uses at line 86 | not executed | Assembly.AsWrittenTwoCells | Assembly.RhsVector |
| fea/material.py:34 | plane-stress shear entry `tmp*(1.0 + nu)`, which equals E / (1 - nu) | steel, E = 200e9 and nu = 0.28: D22 = 2.78e11 instead of G = 7.81e10 | `tmp*(1.0 - nu)/2`, the shear modulus G | not executed | Materials.PlaneStressShearDiscrepancy | Materials.PlaneStressMatrix |

/** The finite element mesh: a node coordinate table and an element
    connectivity (topology) table, the structured grid generator, and the
    extraction of boundary nodes by counting element edges. */
module Meshes {
  import opened Matrices

  /** The table whose entry i * cols + j is f(i, j), row after row. */
  function RowMajor<T>(rows: nat, cols: nat, f: (nat, nat) -> T): (s: seq<T>)
    ensures |s| == rows * cols
  {
    if rows == 0 then []
    else
      var prefix := RowMajor(rows - 1, cols, f);
      assert |prefix| + cols == rows * cols;
      prefix + seq(cols, j requires 0 <= j < cols => f(rows - 1, j))
  }

  /** Entry (i, j) of a row-major table sits at i * cols + j. */
  lemma {:induction false} RowMajorAt<T>(rows: nat, cols: nat, f: (nat, nat) -> T, i: nat, j: nat)
    requires i < rows && j < cols
    ensures i * cols + j < rows * cols
    ensures RowMajor(rows, cols, f)[i * cols + j] == f(i, j)
  {
    assert i * cols + j < (i + 1) * cols <= rows * cols;
    if i < rows - 1 {
      RowMajorAt(rows - 1, cols, f, i, j);
    } else {
      assert |RowMajor(rows - 1, cols, f)| == i * cols;
    }
  }

  /** Every entry of a row-major table is f(i, j) for exactly one cell (i, j). */
  lemma RowMajorEntry<T>(rows: nat, cols: nat, f: (nat, nat) -> T, k: nat) returns (i: nat, j: nat)
    requires k < rows * cols
    ensures i < rows && j < cols && k == i * cols + j
    ensures RowMajor(rows, cols, f)[k] == f(i, j)
  {
    i, j := k / cols, k % cols;
    RowMajorAt(rows, cols, f, i, j);
  }

  /** Grid node in row i (counted from y = 0) and column j (from x = 0). */
  function GridNode(m: nat, i: nat, j: nat): nat
  {
    RowStart(m, i) + j
  }

  /** The first node of row i: each row below it holds m + 1 nodes. */
  function RowStart(m: nat, i: nat): nat
  {
    if i == 0 then 0 else RowStart(m, i - 1) + m + 1
  }

  /** Row i starts at node i (m + 1). */
  lemma {:induction false} RowStartProduct(m: nat, i: nat)
    ensures RowStart(m, i) == i * (m + 1)
  {
    if i > 0 {
      RowStartProduct(m, i - 1);
      assert i * (m + 1) == (i - 1) * (m + 1) + m + 1;
    }
  }

  /** The corners of grid cell (i, j), counterclockwise from the bottom left. */
  function GridCorners(m: nat, i: nat, j: nat): (c: seq<int>)
    ensures |c| == 4 && c[0] == GridNode(m, i, j)
    ensures c[1] == c[0] + 1 && c[2] == c[0] + m + 2 && c[3] == c[0] + m + 1
  {
    [GridNode(m, i, j), GridNode(m, i, j + 1), GridNode(m, i + 1, j + 1), GridNode(m, i + 1, j)]
  }

  function CornerTable(m: nat): (nat, nat) -> seq<int>
  {
    (i: nat, j: nat) => GridCorners(m, i, j)
  }

  /** The connectivity table of an m x n grid: cell (i, j) is element i * m + j. */
  function GridTopology(m: nat, n: nat): (t: seq<seq<int>>)
    ensures |t| == m * n
  {
    RowMajor(n, m, CornerTable(m))
  }

  /** The coordinates (j L / m, i H / n) of grid node (i, j). */
  function GridPoint(m: nat, n: nat, L: real, H: real, i: nat, j: nat): (p: seq<real>)
    requires m >= 1 && n >= 1
    ensures |p| == 2
  {
    [j as real * (L / m as real), i as real * (H / n as real)]
  }

  function PointTable(m: nat, n: nat, L: real, H: real): (nat, nat) -> seq<real>
    requires m >= 1 && n >= 1
  {
    (i: nat, j: nat) => GridPoint(m, n, L, H, i, j)
  }

  /** The coordinate table of an m x n grid over [0, L] x [0, H]. */
  function GridCoordinates(m: nat, n: nat, L: real, H: real): (x: seq<seq<real>>)
    requires m >= 1 && n >= 1
    ensures |x| == (m + 1) * (n + 1)
  {
    RowMajor(n + 1, m + 1, PointTable(m, n, L, H))
  }

  /** Cell (i, j) of the grid topology lists GridCorners(m, i, j). */
  lemma GridTopologyAt(m: nat, n: nat, i: nat, j: nat)
    requires i < n && j < m
    ensures i * m + j < m * n
    ensures GridTopology(m, n)[i * m + j] == GridCorners(m, i, j)
  {
    RowMajorAt(n, m, CornerTable(m), i, j);
  }

  /** Cell (i, j) of the grid has the corner numbers that grid_mesh writes. */
  lemma GridCornerNumbers(m: nat, n: nat, i: nat, j: nat)
    requires i < n && j < m
    ensures i * m + j < m * n
    ensures GridTopology(m, n)[i * m + j]
            == [i * (m + 1) + j, i * (m + 1) + j + 1, (i + 1) * (m + 1) + j + 1, (i + 1) * (m + 1) + j]
  {
    GridTopologyAt(m, n, i, j);
    RowStartProduct(m, i);
    RowStartProduct(m, i + 1);
  }

  /** Node (i, j) of the grid coordinates lies at (j L / m, i H / n). */
  lemma GridCoordinatesAt(m: nat, n: nat, L: real, H: real, i: nat, j: nat)
    requires m >= 1 && n >= 1 && i <= n && j <= m
    ensures GridNode(m, i, j) < (m + 1) * (n + 1)
    ensures GridCoordinates(m, n, L, H)[GridNode(m, i, j)] == GridPoint(m, n, L, H, i, j)
  {
    RowMajorAt(n + 1, m + 1, PointTable(m, n, L, H), i, j);
    RowStartProduct(m, i);
  }

  /** Every element of a topology has four corners, each a node index below nNodes. */
  ghost predicate InRange(topo: seq<seq<int>>, nNodes: nat)
  {
    forall e :: 0 <= e < |topo| ==> |topo[e]| == 4 && forall c :: 0 <= c < 4 ==> 0 <= topo[e][c] < nNodes
  }

  /** The four corners of every element are pairwise distinct. */
  ghost predicate DistinctCorners(topo: seq<seq<int>>)
    requires Quadrilaterals(topo)
  {
    forall e, c, d :: 0 <= e < |topo| && 0 <= c < d < 4 ==> topo[e][c] != topo[e][d]
  }

  /** Node number i (m + 1) + j, as grid_mesh writes it, holds the point (j L / m, i H / n). */
  lemma GridPointNumbers(m: nat, n: nat, L: real, H: real, dx: real, dy: real, i: nat, j: nat)
    requires m >= 1 && n >= 1 && i <= n && j <= m && dx == L / m as real && dy == H / n as real
    ensures i * (m + 1) + j < (m + 1) * (n + 1)
    ensures |GridCoordinates(m, n, L, H)[i * (m + 1) + j]| == 2
    ensures GridCoordinates(m, n, L, H)[i * (m + 1) + j][0] == j as real * dx
    ensures GridCoordinates(m, n, L, H)[i * (m + 1) + j][1] == i as real * dy
  {
    GridCoordinatesAt(m, n, L, H, i, j);
    RowStartProduct(m, i);
    var p := GridPoint(m, n, L, H, i, j);
    assert p[0] == j as real * (L / m as real) && p[1] == i as real * (H / n as real);
  }

  /** Each element of an m x n grid has four distinct corners, all among the
      (m + 1)(n + 1) nodes. */
  lemma GridTopologyWellFormed(m: nat, n: nat)
    ensures InRange(GridTopology(m, n), (m + 1) * (n + 1))
    ensures DistinctCorners(GridTopology(m, n))
  {
    var t := GridTopology(m, n);
    forall e | 0 <= e < |t|
      ensures |t[e]| == 4 && forall c :: 0 <= c < 4 ==> 0 <= t[e][c] < (m + 1) * (n + 1)
      ensures forall c, d :: 0 <= c < d < 4 ==> t[e][c] != t[e][d]
    {
      var i, j := RowMajorEntry(n, m, CornerTable(m), e);
      assert t[e] == GridCorners(m, i, j);
      GridNodeBelow(m, n, i + 1, j + 1);
    }
  }

  /** Every row of the grid coordinate table is a pair (x, y). */
  lemma GridCoordinatesArePairs(m: nat, n: nat, L: real, H: real)
    requires m >= 1 && n >= 1
    ensures forall p :: 0 <= p < |GridCoordinates(m, n, L, H)| ==> |GridCoordinates(m, n, L, H)[p]| == 2
  {
    var x := GridCoordinates(m, n, L, H);
    forall p | 0 <= p < |x|
      ensures |x[p]| == 2
    {
      var i, j := RowMajorEntry(n + 1, m + 1, PointTable(m, n, L, H), p);
    }
  }

  /** Offset i * cols + j of a position in a rows x cols table, where j may be
      one past the last column. */
  lemma TableOffset(rows: nat, cols: nat, i: nat, j: nat)
    requires i < rows && j <= cols
    ensures i * cols + j <= rows * cols
    ensures i * cols + cols == (i + 1) * cols
  {
    assert (i + 1) * cols <= rows * cols;
  }

  /** Node (i, j) with i <= n and j <= m is below (m + 1)(n + 1). */
  lemma GridNodeBelow(m: nat, n: nat, i: nat, j: nat)
    requires i <= n && j <= m
    ensures GridNode(m, i, j) < (m + 1) * (n + 1)
  {
    RowStartProduct(m, i);
    assert i * (m + 1) <= n * (m + 1);
  }

  /** An undirected edge, keyed by its two endpoints in increasing order. */
  function EdgeKey(a: int, b: int): (key: (int, int))
    ensures key.0 <= key.1
  {
    if a < b then (a, b) else (b, a)
  }

  /** The key of an edge does not depend on the direction it is walked in,
      and its two entries are the edge's two endpoints. */
  lemma EdgeKeyUndirected(a: int, b: int)
    ensures EdgeKey(a, b) == EdgeKey(b, a)
    ensures {EdgeKey(a, b).0, EdgeKey(a, b).1} == {a, b}
  {
  }

  /** The four edge keys of an element: side c joins corner c to corner c + 1 mod 4. */
  function ElementEdges(corners: seq<int>): (keys: seq<(int, int)>)
    requires |corners| == 4
    ensures |keys| == 4
    ensures forall c :: 0 <= c < 4 ==> keys[c] == EdgeKey(corners[c], corners[(c + 1) % 4])
  {
    seq(4, c requires 0 <= c < 4 => EdgeKey(corners[c], corners[(c + 1) % 4]))
  }

  /** Every element has four corners. */
  ghost predicate Quadrilaterals(topo: seq<seq<int>>)
  {
    forall e :: 0 <= e < |topo| ==> |topo[e]| == 4
  }

  /** The edge keys of all elements, element after element. */
  function EdgeList(topo: seq<seq<int>>): (keys: seq<(int, int)>)
    requires Quadrilaterals(topo)
    ensures |keys| == 4 * |topo|
  {
    if topo == [] then [] else EdgeList(topo[..|topo| - 1]) + ElementEdges(topo[|topo| - 1])
  }

  /** The endpoints, in order, of the keys in `keys` that `edges` counts exactly once. */
  function OnceEndpoints(edges: map<(int, int), nat>, keys: seq<(int, int)>): seq<int>
    requires forall p :: 0 <= p < |keys| ==> keys[p] in edges
  {
    if keys == [] then []
    else
      var key := keys[|keys| - 1];
      OnceEndpoints(edges, keys[..|keys| - 1]) + (if edges[key] == 1 then [key.0, key.1] else [])
  }

  /** The boundary nodes of a topology: the endpoints of the edges that belong
      to exactly one element side. */
  ghost function BoundaryNodes(topo: seq<seq<int>>): set<int>
    requires Quadrilaterals(topo)
  {
    var counts := multiset(EdgeList(topo));
    (set key | key in counts && counts[key] == 1 :: key.0) + (set key | key in counts && counts[key] == 1 :: key.1)
  }

  /** `edges` holds, for every key of `keys`, the number of its occurrences. */
  ghost predicate Counts(edges: map<(int, int), nat>, keys: seq<(int, int)>)
  {
    && (forall key :: key in edges <==> key in multiset(keys))
    && (forall key :: key in edges ==> edges[key] == multiset(keys)[key])
  }

  /** `order` lists the keys of `edges`, each once. */
  ghost predicate KeysListedOnce(edges: map<(int, int), nat>, order: seq<(int, int)>)
  {
    && (forall p :: 0 <= p < |order| ==> order[p] in edges)
    && (forall key :: key in edges ==> key in order)
    && (forall p, q :: 0 <= p < q < |order| ==> order[p] != order[q])
  }

  /** Membership in OnceEndpoints: x is an endpoint of a listed key counted once. */
  lemma {:induction false} OnceEndpointsMember(edges: map<(int, int), nat>, keys: seq<(int, int)>, x: int)
    requires forall p :: 0 <= p < |keys| ==> keys[p] in edges
    ensures x in OnceEndpoints(edges, keys)
            <==> exists p :: 0 <= p < |keys| && edges[keys[p]] == 1 && (x == keys[p].0 || x == keys[p].1)
  {
    if keys != [] {
      var last := |keys| - 1;
      OnceEndpointsMember(edges, keys[..last], x);
      assert forall p :: 0 <= p < last ==> keys[..last][p] == keys[p];
    }
  }

  /** When `edges` counts the edge list of a topology and `order` lists its
      keys, the endpoints of the keys counted once are the boundary nodes. */
  lemma OnceEndpointsAreBoundary(topo: seq<seq<int>>, edges: map<(int, int), nat>, order: seq<(int, int)>)
    requires Quadrilaterals(topo)
    requires Counts(edges, EdgeList(topo)) && KeysListedOnce(edges, order)
    ensures forall x :: x in OnceEndpoints(edges, order) <==> x in BoundaryNodes(topo)
  {
    var counts := multiset(EdgeList(topo));
    forall x
      ensures x in OnceEndpoints(edges, order) <==> x in BoundaryNodes(topo)
    {
      OnceEndpointsMember(edges, order, x);
      if x in BoundaryNodes(topo) {
        var key :| key in counts && counts[key] == 1 && (x == key.0 || x == key.1);
        assert key in edges;
        var p :| 0 <= p < |order| && order[p] == key;
      }
    }
  }

  /** Counting one more occurrence of `key`: increment it when present,
      otherwise insert it with count 1 at the end of the key list. */
  lemma CountOneMore(edges: map<(int, int), nat>, order: seq<(int, int)>, keys: seq<(int, int)>, key: (int, int))
    requires Counts(edges, keys) && KeysListedOnce(edges, order)
    ensures key in edges ==>
      Counts(edges[key := edges[key] + 1], keys + [key]) && KeysListedOnce(edges[key := edges[key] + 1], order)
    ensures key !in edges ==>
      Counts(edges[key := 1], keys + [key]) && KeysListedOnce(edges[key := 1], order + [key])
  {
    assert multiset(keys + [key]) == multiset(keys) + multiset{key};
    if key !in edges {
      assert forall p :: 0 <= p < |order| ==> order[p] != key;
    }
  }

  /** One dictionary update: a key seen before has its count raised by one,
      a new key enters with count 1 at the end of the key list. */
  method AddKey(edges0: map<(int, int), nat>, order0: seq<(int, int)>, ghost keys: seq<(int, int)>, key: (int, int))
    returns (edges: map<(int, int), nat>, order: seq<(int, int)>)
    requires Counts(edges0, keys) && KeysListedOnce(edges0, order0)
    ensures Counts(edges, keys + [key]) && KeysListedOnce(edges, order)
  {
    CountOneMore(edges0, order0, keys, key);
    if key in edges0 {
      edges, order := edges0[key := edges0[key] + 1], order0;
    } else {
      edges, order := edges0[key := 1], order0 + [key];
    }
  }

  /** Extending a prefix of `keys` by one more key. */
  lemma PrefixStep<T>(before: seq<T>, keys: seq<T>, i: nat)
    requires i < |keys|
    ensures before + keys[..i + 1] == (before + keys[..i]) + [keys[i]]
  {
    assert keys[..i + 1] == keys[..i] + [keys[i]];
  }

  predicate StrictlyIncreasing(s: seq<int>)
  {
    forall p, q :: 0 <= p < q < |s| ==> s[p] < s[q]
  }

  /** The distinct values of xs in increasing order. */
  method Unique(xs: seq<int>) returns (r: seq<int>)
    ensures StrictlyIncreasing(r)
    ensures forall x :: x in r <==> x in xs
  {
    r := [];
    for t := 0 to |xs|
      invariant StrictlyIncreasing(r)
      invariant forall x :: x in r <==> x in xs[..t]
    {
      var x := xs[t];
      var p := 0;
      while p < |r| && r[p] < x
        invariant 0 <= p <= |r|
        invariant forall q :: 0 <= q < p ==> r[q] < x
      {
        p := p + 1;
      }
      if p == |r| || r[p] != x {
        r := r[..p] + [x] + r[p..];
      }
      assert xs[..t + 1] == xs[..t] + [x];
    }
  }

  class Mesh {
    const coordinates: array2<real>
    const topology: array2<int>

    constructor (coordinates: array2<real>, topology: array2<int>)
      ensures this.coordinates == coordinates && this.topology == topology
    {
      this.coordinates := coordinates;
      this.topology := topology;
    }

    function NElements(): nat
    {
      topology.Length0
    }

    function NNodes(): nat
    {
      coordinates.Length0
    }

    /** The connectivity table as rows of node indices. */
    ghost function Topology(): seq<seq<int>>
      reads topology
    {
      Snapshot(topology)
    }

    /** The coordinate table as rows (x, y). */
    ghost function Coordinates(): seq<seq<real>>
      reads coordinates
    {
      Snapshot(coordinates)
    }

    /** Four corners per element, two coordinates per node, every corner a node. */
    ghost predicate Valid()
      reads topology
    {
      && topology.Length1 == 4
      && coordinates.Length1 == 2
      && forall e, c :: 0 <= e < topology.Length0 && 0 <= c < 4 ==> 0 <= topology[e, c] < coordinates.Length0
    }

    /** The counting loop of the boundary extraction: the dictionary from
        undirected edge keys to the number of element sides on that edge,
        with a list of its keys that names each key exactly once. Which
        order the dictionary lists them in is left open: the boundary is
        sorted afterwards. */
    method CountEdges() returns (edges: map<(int, int), nat>, order: seq<(int, int)>)
      requires topology.Length1 == 4
      ensures Counts(edges, EdgeList(Topology())) && KeysListedOnce(edges, order)
    {
      ghost var topo := Topology();
      edges, order := map[], [];
      for e := 0 to topology.Length0
        invariant Counts(edges, EdgeList(topo[..e]))
        invariant KeysListedOnce(edges, order)
      {
        edges, order := CountSides(e, edges, order, EdgeList(topo[..e]));
        assert topo[..e + 1][..e] == topo[..e];
      }
      assert topo[..topology.Length0] == topo;
    }

    /** One pass of the inner counting loop: the four sides of element e. */
    method CountSides(e: nat, edges0: map<(int, int), nat>, order0: seq<(int, int)>, ghost before: seq<(int, int)>)
      returns (edges: map<(int, int), nat>, order: seq<(int, int)>)
      requires topology.Length1 == 4 && e < topology.Length0
      requires Counts(edges0, before) && KeysListedOnce(edges0, order0)
      ensures Counts(edges, before + ElementEdges(Topology()[e])) && KeysListedOnce(edges, order)
    {
      ghost var sides := ElementEdges(Topology()[e]);
      edges, order := edges0, order0;
      for i := 0 to 4
        invariant Counts(edges, before + sides[..i])
        invariant KeysListedOnce(edges, order)
      {
        var a, b := topology[e, i], topology[e, (i + 1) % 4];
        var key := if a < b then (a, b) else (b, a);
        assert key == sides[i] by {
          assert Topology()[e][i] == a && Topology()[e][(i + 1) % 4] == b;
        }
        assert before + sides[..i + 1] == (before + sides[..i]) + [key] by {
          PrefixStep(before, sides, i);
        }
        edges, order := AddKey(edges, order, before + sides[..i], key);
      }
      assert sides[..4] == sides;
    }

    /** The nodes on the mesh boundary, in increasing order and without
        repetition: every element side is counted under its undirected key,
        and the endpoints of the sides counted exactly once are kept. */
    method Boundary() returns (nodes: seq<int>)
      requires topology.Length1 == 4
      ensures StrictlyIncreasing(nodes)
      ensures forall x :: x in nodes <==> x in BoundaryNodes(Topology())
    {
      var edges, order := CountEdges();
      var s := CollectOnceEndpoints(edges, order);
      OnceEndpointsAreBoundary(Topology(), edges, order);
      nodes := Unique(s);
    }

    /** The collecting loop of the boundary extraction: the endpoints of the
        keys counted once, kept as a list in the order they are added. */
    static method CollectOnceEndpoints(edges: map<(int, int), nat>, order: seq<(int, int)>) returns (s: seq<int>)
      requires forall p :: 0 <= p < |order| ==> order[p] in edges
      ensures s == OnceEndpoints(edges, order)
    {
      s := [];
      for t := 0 to |order|
        invariant s == OnceEndpoints(edges, order[..t])
      {
        var key := order[t];
        if edges[key] == 1 {
          s := s + [key.0, key.1];
        }
        assert order[..t + 1][..t] == order[..t];
      }
      assert order[..|order|] == order;
    }

    /** An m x n grid of quadrilaterals over [0, L] x [0, H]: (m + 1)(n + 1)
        nodes numbered row after row and m n elements, cell (i, j) being
        element i m + j with corners counterclockwise from its bottom left.
        The source divides L by m and H by n, so m and n must be positive. */
    static method GridMesh(m: nat, n: nat, L: real := 1.0, H: real := 1.0) returns (mesh: Mesh)
      requires m >= 1 && n >= 1
      ensures fresh(mesh.coordinates) && fresh(mesh.topology)
      ensures mesh.NElements() == m * n && mesh.NNodes() == (m + 1) * (n + 1)
      ensures mesh.Valid()
      ensures mesh.Topology() == GridTopology(m, n)
      ensures mesh.Coordinates() == GridCoordinates(m, n, L, H)
    {
      var topology := FillGridTopology(m, n);
      var coordinates := FillGridCoordinates(m, n, L, H);
      mesh := new Mesh(coordinates, topology);
      GridTopologyWellFormed(m, n);
    }
  }

  /** The connectivity loop of the grid generator: a running counter k walks
      the cells row by row and receives the cell's four corners. */
  method FillGridTopology(m: nat, n: nat) returns (topology: array2<int>)
    ensures fresh(topology)
    ensures topology.Length0 == m * n && topology.Length1 == 4
    ensures Snapshot(topology) == GridTopology(m, n)
  {
    topology := new int[m * n, 4];
    ghost var T := GridTopology(m, n);
    var k := 0;
    for i := 0 to n
      invariant k == i * m && k <= m * n
      invariant RowsMatch(topology, T, k)
    {
      k := FillGridRow(topology, m, n, i, k);
      assert k <= m * n by {
        TableOffset(n, m, i, m);
      }
    }
    assert Quadrilaterals(T) by {
      GridTopologyWellFormed(m, n);
    }
    forall e | 0 <= e < m * n
      ensures Snapshot(topology)[e] == T[e]
    {
    }
  }

  /** The first k rows of the table `a` hold the first k rows of T. */
  ghost predicate RowsMatch<T>(a: array2<T>, rows: seq<seq<T>>, k: nat)
    reads a
  {
    forall e, c :: 0 <= e < k && e < |rows| && 0 <= c < |rows[e]| && e < a.Length0 && c < a.Length1 ==> a[e, c] == rows[e][c]
  }

  /** One pass of the inner connectivity loop: the m cells of row i, numbered
      from k on, receive their corners. */
  method FillGridRow(topology: array2<int>, m: nat, n: nat, i: nat, k0: nat) returns (k: nat)
    requires topology.Length0 == m * n && topology.Length1 == 4 && i < n && k0 == i * m
    requires RowsMatch(topology, GridTopology(m, n), k0)
    modifies topology
    ensures k == (i + 1) * m
    ensures RowsMatch(topology, GridTopology(m, n), k)
  {
    ghost var T := GridTopology(m, n);
    k := k0;
    for j := 0 to m
      invariant k == k0 + j
      invariant RowsMatch(topology, T, k)
    {
      var bottom, top := i * (m + 1) + j, (i + 1) * (m + 1) + j;
      assert k < m * n && T[k] == [bottom, bottom + 1, top + 1, top] by {
        GridCornerNumbers(m, n, i, j);
      }
      SetCorners(topology, k, bottom, top);
      k := k + 1;
    }
    assert (i + 1) * m == i * m + m;
  }

  /** The four writes of one cell: row k of the table becomes
      [bottom, bottom + 1, top + 1, top]. */
  method SetCorners(topology: array2<int>, k: nat, bottom: int, top: int)
    requires k < topology.Length0 && topology.Length1 == 4
    modifies topology
    ensures forall c :: 0 <= c < 4 ==> topology[k, c] == [bottom, bottom + 1, top + 1, top][c]
    ensures forall e, c :: 0 <= e < topology.Length0 && 0 <= c < 4 && e != k ==> topology[e, c] == old(topology[e, c])
  {
    topology[k, 0] := bottom;
    topology[k, 1] := bottom + 1;
    topology[k, 2] := top + 1;
    topology[k, 3] := top;
  }

  /** The coordinate loop of the grid generator: node k = i (m + 1) + j
      receives (j dx, i dy) with dx = L / m and dy = H / n. */
  method FillGridCoordinates(m: nat, n: nat, L: real, H: real) returns (coordinates: array2<real>)
    requires m >= 1 && n >= 1
    ensures fresh(coordinates)
    ensures coordinates.Length0 == (m + 1) * (n + 1) && coordinates.Length1 == 2
    ensures Snapshot(coordinates) == GridCoordinates(m, n, L, H)
  {
    coordinates := new real[(m + 1) * (n + 1), 2];
    ghost var X := GridCoordinates(m, n, L, H);
    GridCoordinatesArePairs(m, n, L, H);
    var dx := L / m as real;
    var dy := H / n as real;
    var k := 0;
    for i := 0 to n + 1
      invariant k == i * (m + 1) && k <= (m + 1) * (n + 1)
      invariant RowsMatch(coordinates, X, k)
    {
      k := FillGridPointRow(coordinates, m, n, L, H, dx, dy, i, k);
      assert k <= (m + 1) * (n + 1) by {
        TableOffset(n + 1, m + 1, i, m + 1);
      }
    }
    forall p | 0 <= p < (m + 1) * (n + 1)
      ensures Snapshot(coordinates)[p] == X[p]
    {
    }
  }

  /** One pass of the inner coordinate loop: the m + 1 nodes of row i,
      numbered from k on, receive their coordinates. */
  method FillGridPointRow(coordinates: array2<real>, m: nat, n: nat, L: real, H: real, dx: real, dy: real, i: nat, k0: nat)
    returns (k: nat)
    requires m >= 1 && n >= 1 && dx == L / m as real && dy == H / n as real
    requires coordinates.Length0 == (m + 1) * (n + 1) && coordinates.Length1 == 2 && i <= n && k0 == i * (m + 1)
    requires RowsMatch(coordinates, GridCoordinates(m, n, L, H), k0)
    modifies coordinates
    ensures k == (i + 1) * (m + 1)
    ensures RowsMatch(coordinates, GridCoordinates(m, n, L, H), k)
  {
    ghost var X := GridCoordinates(m, n, L, H);
    k := k0;
    for j := 0 to m + 1
      invariant k == k0 + j
      invariant RowsMatch(coordinates, X, k)
    {
      assert k < |X| && |X[k]| == 2 && X[k][0] == j as real * dx && X[k][1] == i as real * dy by {
        GridPointNumbers(m, n, L, H, dx, dy, i, j);
      }
      SetPoint(coordinates, k, j as real * dx, i as real * dy);
      k := k + 1;
    }
    assert (i + 1) * (m + 1) == i * (m + 1) + m + 1;
  }

  /** The two writes of one node: row k of the table becomes [x, y]. */
  method SetPoint(coordinates: array2<real>, k: nat, x: real, y: real)
    requires k < coordinates.Length0 && coordinates.Length1 == 2
    modifies coordinates
    ensures coordinates[k, 0] == x && coordinates[k, 1] == y
    ensures forall p, c :: 0 <= p < coordinates.Length0 && 0 <= c < 2 && p != k ==> coordinates[p, c] == old(coordinates[p, c])
  {
    coordinates[k, 0] := x;
    coordinates[k, 1] := y;
  }
}

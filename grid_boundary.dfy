/** The boundary of a structured grid: on the mesh that grid_mesh builds, the
    edges counted once by `boundary` are exactly the sides along the four
    walls, so the boundary nodes are the nodes of the outer rows and columns. */
module GridBoundary {
  import opened Meshes

  /** The horizontal grid edge from node (i, j) to node (i, j + 1). */
  function HKey(m: nat, i: nat, j: nat): (int, int)
  {
    (GridNode(m, i, j), GridNode(m, i, j) + 1)
  }

  /** The vertical grid edge from node (i, j) to node (i + 1, j). */
  function VKey(m: nat, i: nat, j: nat): (int, int)
  {
    (GridNode(m, i, j), GridNode(m, i, j) + m + 1)
  }

  /** The nodes of the bottom and top rows and of the left and right columns. */
  ghost function PerimeterNodes(m: nat, n: nat): set<int>
  {
    set i: nat, j: nat | i <= n && j <= m && (i == 0 || i == n || j == 0 || j == m) :: GridNode(m, i, j)
  }

  /** Node (i, j) of an outer row or column is a perimeter node. */
  lemma OnPerimeter(m: nat, n: nat, i: nat, j: nat)
    requires i <= n && j <= m && (i == 0 || i == n || j == 0 || j == m)
    ensures GridNode(m, i, j) in PerimeterNodes(m, n)
  {
  }

  /** Positions in an earlier row of a table with `cols` columns come first. */
  lemma RowsOrdered(cols: nat, i: nat, j: nat, i2: nat, j2: nat)
    requires j < cols
    ensures i < i2 ==> i * cols + j < i2 * cols + j2
  {
    if i < i2 {
      assert i2 * cols == (i2 - i - 1) * cols + (i + 1) * cols;
      assert (i + 1) * cols == i * cols + cols;
    }
  }

  /** Row and column are determined by a position i * cols + j with j < cols. */
  lemma PositionUnique(cols: nat, i: nat, j: nat, i2: nat, j2: nat)
    requires j < cols && j2 < cols
    ensures i * cols + j == i2 * cols + j2 <==> i == i2 && j == j2
  {
    RowsOrdered(cols, i, j, i2, j2);
    RowsOrdered(cols, i2, j2, i, j);
  }

  /** Later rows start further on, after at least a full row of m + 1 nodes. */
  lemma {:induction false} RowStartIncreasing(m: nat, i: nat, i2: nat)
    ensures i < i2 ==> RowStart(m, i) + m + 1 <= RowStart(m, i2)
  {
    if i < i2 {
      RowStartIncreasing(m, i, i2 - 1);
    }
  }

  /** Node (i, j) with j <= m is numbered by no other row and column. */
  lemma GridNodeUnique(m: nat, i: nat, j: nat, i2: nat, j2: nat)
    requires j <= m && j2 <= m
    ensures GridNode(m, i, j) == GridNode(m, i2, j2) <==> i == i2 && j == j2
  {
    RowStartIncreasing(m, i, i2);
    RowStartIncreasing(m, i2, i);
  }

  /** The sides of grid cell (i, j): bottom, right, top and left. */
  lemma CellSides(m: nat, i: nat, j: nat)
    ensures ElementEdges(GridCorners(m, i, j)) == [HKey(m, i, j), VKey(m, i, j + 1), HKey(m, i + 1, j), VKey(m, i, j)]
  {
    var a := GridNode(m, i, j);
    var c := GridCorners(m, i, j);
    assert c == [a, a + 1, a + m + 2, a + m + 1];
    SquareSides(c, a, m);
    assert HKey(m, i, j) == (a, a + 1);
    assert VKey(m, i, j + 1) == (a + 1, a + m + 2) by {
      assert GridNode(m, i, j + 1) == a + 1;
    }
    assert HKey(m, i + 1, j) == (a + m + 1, a + m + 2) by {
      NextRow(m, i, j);
    }
    assert VKey(m, i, j) == (a, a + m + 1);
  }

  /** The sides of a cell whose bottom-left corner is node a, in a grid with
      m + 1 nodes per row. */
  lemma SquareSides(c: seq<int>, a: int, m: nat)
    requires c == [a, a + 1, a + m + 2, a + m + 1]
    ensures ElementEdges(c) == [(a, a + 1), (a + 1, a + m + 2), (a + m + 1, a + m + 2), (a, a + m + 1)]
  {
    var s := ElementEdges(c);
    assert s[0] == EdgeKey(c[0], c[1]);
    assert s[1] == EdgeKey(c[1], c[2]);
    assert s[2] == EdgeKey(c[2], c[3]);
    assert s[3] == EdgeKey(c[3], c[0]);
  }

  /** The node above (i, j) is m + 1 further on. */
  lemma NextRow(m: nat, i: nat, j: nat)
    ensures GridNode(m, i + 1, j) == GridNode(m, i, j) + m + 1
  {
  }

  /** The edge list of a topology grows by one element's sides at a time. */
  lemma EdgeListStep(topo: seq<seq<int>>, e: nat)
    requires Quadrilaterals(topo) && e < |topo|
    ensures EdgeList(topo[..e + 1]) == EdgeList(topo[..e]) + ElementEdges(topo[e])
  {
    assert topo[..e + 1][..e] == topo[..e];
  }

  /** Every element of the grid has four corners. */
  lemma GridQuadrilaterals(m: nat, n: nat)
    ensures Quadrilaterals(GridTopology(m, n))
  {
    GridTopologyWellFormed(m, n);
  }

  /** Element e of the grid is cell (i, j) with e == i * m + j. */
  lemma GridCell(m: nat, n: nat, e: nat) returns (i: nat, j: nat)
    requires e < m * n
    ensures i < n && j < m && e == i * m + j
    ensures GridTopology(m, n)[e] == GridCorners(m, i, j)
    ensures Quadrilaterals(GridTopology(m, n))
  {
    i, j := RowMajorEntry(n, m, CornerTable(m), e);
    GridQuadrilaterals(m, n);
  }

  /** Occurrences of k in a sequence of four. */
  lemma CountOfFour<K>(s: seq<K>, k: K)
    requires |s| == 4
    ensures multiset(s)[k] == (if s[0] == k then 1 else 0) + (if s[1] == k then 1 else 0)
                              + (if s[2] == k then 1 else 0) + (if s[3] == k then 1 else 0)
  {
    assert s == [s[0]] + [s[1]] + [s[2]] + [s[3]];
  }

  /** Horizontal edges are named by their left node. */
  lemma HKeyUnique(m: nat, i: nat, j: nat, r: nat, j0: nat)
    requires j < m && j0 < m
    ensures HKey(m, i, j) == HKey(m, r, j0) <==> i == r && j == j0
  {
    GridNodeUnique(m, i, j, r, j0);
  }

  /** Vertical edges are named by their lower node. */
  lemma VKeyUnique(m: nat, i: nat, j: nat, i0: nat, c: nat)
    requires j <= m && c <= m
    ensures VKey(m, i, j) == VKey(m, i0, c) <==> i == i0 && j == c
  {
    GridNodeUnique(m, i, j, i0, c);
  }

  /** A horizontal edge joins neighbours in a row, a vertical one nodes m + 1 apart. */
  lemma HorizontalNotVertical(m: nat, i: nat, j: nat, i0: nat, c: nat)
    requires m >= 1
    ensures HKey(m, i, j) != VKey(m, i0, c)
  {
    assert HKey(m, i, j).1 - HKey(m, i, j).0 == 1;
    assert VKey(m, i0, c).1 - VKey(m, i0, c).0 == m + 1;
  }

  /** How often cell (i, j) has key k among its four sides. */
  lemma CellCount(m: nat, i: nat, j: nat, k: (int, int))
    ensures multiset(ElementEdges(GridCorners(m, i, j)))[k]
            == (if HKey(m, i, j) == k then 1 else 0) + (if VKey(m, i, j + 1) == k then 1 else 0)
               + (if HKey(m, i + 1, j) == k then 1 else 0) + (if VKey(m, i, j) == k then 1 else 0)
  {
    CellSides(m, i, j);
    CountOfFour([HKey(m, i, j), VKey(m, i, j + 1), HKey(m, i + 1, j), VKey(m, i, j)], k);
  }

  /** How often cell (i, j) has horizontal edge (r, j0) among its sides: once
      as its bottom side and once as its top side. */
  lemma CellHorizontalCount(m: nat, i: nat, j: nat, r: nat, j0: nat)
    requires m >= 1 && j < m && j0 < m
    ensures multiset(ElementEdges(GridCorners(m, i, j)))[HKey(m, r, j0)]
            == (if i == r && j == j0 then 1 else 0) + (if i + 1 == r && j == j0 then 1 else 0)
  {
    var k := HKey(m, r, j0);
    assert VKey(m, i, j + 1) != k && VKey(m, i, j) != k by {
      HorizontalNotVertical(m, r, j0, i, j + 1);
      HorizontalNotVertical(m, r, j0, i, j);
    }
    assert HKey(m, i, j) == k <==> i == r && j == j0 by {
      HKeyUnique(m, i, j, r, j0);
    }
    assert HKey(m, i + 1, j) == k <==> i + 1 == r && j == j0 by {
      HKeyUnique(m, i + 1, j, r, j0);
    }
    CellCount(m, i, j, k);
  }

  /** How often cell (i, j) has vertical edge (i0, c) among its sides: once as
      its left side and once as its right side. */
  lemma CellVerticalCount(m: nat, i: nat, j: nat, i0: nat, c: nat)
    requires m >= 1 && j < m && c <= m
    ensures multiset(ElementEdges(GridCorners(m, i, j)))[VKey(m, i0, c)]
            == (if i == i0 && j == c then 1 else 0) + (if i == i0 && j + 1 == c then 1 else 0)
  {
    var k := VKey(m, i0, c);
    assert HKey(m, i, j) != k && HKey(m, i + 1, j) != k by {
      HorizontalNotVertical(m, i, j, i0, c);
      HorizontalNotVertical(m, i + 1, j, i0, c);
    }
    assert VKey(m, i, j + 1) == k <==> i == i0 && j + 1 == c by {
      VKeyUnique(m, i, j + 1, i0, c);
    }
    assert VKey(m, i, j) == k <==> i == i0 && j == c by {
      VKeyUnique(m, i, j, i0, c);
    }
    CellCount(m, i, j, k);
  }

  /** Cell (i, j) lies directly below cell (r, j0) when their positions are m apart. */
  lemma NextRowPosition(m: nat, i: nat, j: nat, r: nat, j0: nat)
    requires j < m && j0 < m
    ensures i + 1 == r && j == j0 <==> i * m + j + m == r * m + j0
  {
    PositionUnique(m, i + 1, j, r, j0);
    assert (i + 1) * m == i * m + m;
  }

  /** Counting a key through the edge list of any topology: when element q
      has the key among its sides once for q == p1 (if b1) and once for
      q == p2 (if b2), and never otherwise, the first e elements have it once
      for each of p1 and p2 that is below e. */
  lemma {:induction false} CountThroughElements(topo: seq<seq<int>>, k: (int, int), e: nat, p1: int, p2: int, b1: bool, b2: bool)
    requires Quadrilaterals(topo) && e <= |topo|
    requires forall q :: 0 <= q < |topo| ==>
               multiset(ElementEdges(topo[q]))[k] == (if b1 && q == p1 then 1 else 0) + (if b2 && q == p2 then 1 else 0)
    ensures Quadrilaterals(topo[..e])
    ensures multiset(EdgeList(topo[..e]))[k] == (if b1 && 0 <= p1 < e then 1 else 0) + (if b2 && 0 <= p2 < e then 1 else 0)
  {
    if e == 0 {
      assert topo[..0] == [];
    } else {
      CountThroughElements(topo, k, e - 1, p1, p2, b1, b2);
      EdgeListStep(topo, e - 1);
    }
  }

  /** Every key in the edge list of a topology is a side of one of its elements. */
  lemma {:induction false} SideOfSomeElement(topo: seq<seq<int>>, e: nat, k: (int, int))
    requires Quadrilaterals(topo) && e <= |topo|
    ensures Quadrilaterals(topo[..e])
    ensures k in multiset(EdgeList(topo[..e])) ==> exists q :: 0 <= q < e && k in ElementEdges(topo[q])
  {
    if e > 0 {
      SideOfSomeElement(topo, e - 1, k);
      EdgeListStep(topo, e - 1);
    }
  }

  /** Element q of the grid has horizontal edge (r, j0) as its bottom side
      when it is cell (r, j0) and as its top side when it is cell (r - 1, j0). */
  lemma ElementHorizontalCount(m: nat, n: nat, r: nat, j0: nat, q: nat)
    requires m >= 1 && j0 < m && q < m * n
    ensures Quadrilaterals(GridTopology(m, n))
    ensures multiset(ElementEdges(GridTopology(m, n)[q]))[HKey(m, r, j0)]
            == (if r < n && q == r * m + j0 then 1 else 0) + (if 1 <= r && q + m == r * m + j0 then 1 else 0)
  {
    var i, j := GridCell(m, n, q);
    CellHorizontalCount(m, i, j, r, j0);
    PositionUnique(m, i, j, r, j0);
    NextRowPosition(m, i, j, r, j0);
  }

  /** Element q of the grid has vertical edge (i0, c) as its left side when it
      is cell (i0, c) and as its right side when it is cell (i0, c - 1). */
  lemma ElementVerticalCount(m: nat, n: nat, i0: nat, c: nat, q: nat)
    requires m >= 1 && c <= m && q < m * n
    ensures Quadrilaterals(GridTopology(m, n))
    ensures multiset(ElementEdges(GridTopology(m, n)[q]))[VKey(m, i0, c)]
            == (if c < m && q == i0 * m + c then 1 else 0) + (if 1 <= c && q + 1 == i0 * m + c then 1 else 0)
  {
    var i, j := GridCell(m, n, q);
    CellVerticalCount(m, i, j, i0, c);
    if c < m {
      PositionUnique(m, i, j, i0, c);
    }
    if 1 <= c {
      var left: nat := c - 1;
      PositionUnique(m, i, j, i0, left);
    }
  }

  /** A horizontal grid edge lies on one element when it is in the bottom or
      top row, and on two otherwise. */
  lemma HorizontalEdgeCount(m: nat, n: nat, r: nat, j0: nat)
    requires m >= 1 && n >= 1 && r <= n && j0 < m
    ensures Quadrilaterals(GridTopology(m, n))
    ensures multiset(EdgeList(GridTopology(m, n)))[HKey(m, r, j0)] == (if r == 0 || r == n then 1 else 2)
  {
    var t := GridTopology(m, n);
    GridQuadrilaterals(m, n);
    var p := r * m + j0;
    forall q | 0 <= q < |t|
      ensures multiset(ElementEdges(t[q]))[HKey(m, r, j0)] == (if r < n && q == p then 1 else 0) + (if 1 <= r && q == p - m then 1 else 0)
    {
      ElementHorizontalCount(m, n, r, j0, q);
    }
    CountThroughElements(t, HKey(m, r, j0), |t|, p, p - m, r < n, 1 <= r);
    assert t[..|t|] == t;
    RowBounds(m, n, r, j0);
  }

  /** Cell (r, j0) is an element when r < n, cell (r - 1, j0) when r >= 1. */
  lemma RowBounds(m: nat, n: nat, r: nat, j0: nat)
    requires r <= n && j0 < m
    ensures 0 <= r * m + j0 && (r < n ==> r * m + j0 < m * n)
    ensures 1 <= r ==> 0 <= r * m + j0 - m < m * n
  {
    if r < n {
      TableOffset(n, m, r, m);
    }
    if 1 <= r {
      var below: nat := r - 1;
      TableOffset(n, m, below, m);
      assert below * m + m == r * m;
    }
  }

  /** A vertical grid edge lies on one element when it is in the left or
      right column, and on two otherwise. */
  lemma VerticalEdgeCount(m: nat, n: nat, i0: nat, c: nat)
    requires m >= 1 && i0 < n && c <= m
    ensures Quadrilaterals(GridTopology(m, n))
    ensures multiset(EdgeList(GridTopology(m, n)))[VKey(m, i0, c)] == (if c == 0 || c == m then 1 else 2)
  {
    var t := GridTopology(m, n);
    GridQuadrilaterals(m, n);
    var p := i0 * m + c;
    assert 0 <= i0 * m && i0 * m + m <= |t| by {
      ColumnBounds(m, n, i0);
    }
    forall q | 0 <= q < |t|
      ensures multiset(ElementEdges(t[q]))[VKey(m, i0, c)] == (if c < m && q == p then 1 else 0) + (if 1 <= c && q == p - 1 then 1 else 0)
    {
      ElementVerticalCount(m, n, i0, c, q);
    }
    CountThroughElements(t, VKey(m, i0, c), |t|, p, p - 1, c < m, 1 <= c);
    assert t[..|t|] == t;
  }

  /** The cells of row i0 are elements i0 m to i0 m + m - 1. */
  lemma ColumnBounds(m: nat, n: nat, i0: nat)
    requires i0 < n
    ensures 0 <= i0 * m && i0 * m + m <= m * n
  {
    TableOffset(n, m, i0, m);
  }

  /** An edge of the grid: horizontal (r, j0) or vertical (i0, c). */
  ghost predicate GridEdge(m: nat, n: nat, key: (int, int))
  {
    || (exists r: nat, j0: nat :: r <= n && j0 < m && key == HKey(m, r, j0))
    || (exists i0: nat, c: nat :: i0 < n && c <= m && key == VKey(m, i0, c))
  }

  /** The four sides of grid cell (i, j) are grid edges. */
  lemma CellSidesAreGridEdges(m: nat, n: nat, i: nat, j: nat, key: (int, int))
    requires i < n && j < m && key in ElementEdges(GridCorners(m, i, j))
    ensures GridEdge(m, n, key)
  {
    CellSides(m, i, j);
    if key == HKey(m, i, j) || key == HKey(m, i + 1, j) {
      assert GridEdge(m, n, key);
    } else {
      assert key == VKey(m, i, j + 1) || key == VKey(m, i, j);
      assert GridEdge(m, n, key);
    }
  }

  /** Every side of an element of the grid is a grid edge. */
  lemma SidesAreGridEdges(m: nat, n: nat, key: (int, int))
    ensures Quadrilaterals(GridTopology(m, n))
    ensures key in multiset(EdgeList(GridTopology(m, n))) ==> GridEdge(m, n, key)
  {
    var t := GridTopology(m, n);
    GridQuadrilaterals(m, n);
    SideOfSomeElement(t, |t|, key);
    assert t[..|t|] == t;
    if key in multiset(EdgeList(t)) {
      var q :| 0 <= q < |t| && key in ElementEdges(t[q]);
      var i, j := GridCell(m, n, q);
      CellSidesAreGridEdges(m, n, i, j, key);
    }
  }

  /** A horizontal edge of the bottom or top row has both ends on the perimeter. */
  lemma HorizontalEndsOnPerimeter(m: nat, n: nat, r: nat, j0: nat)
    requires r <= n && j0 < m && (r == 0 || r == n)
    ensures HKey(m, r, j0).0 in PerimeterNodes(m, n) && HKey(m, r, j0).1 in PerimeterNodes(m, n)
  {
    OnPerimeter(m, n, r, j0);
    OnPerimeter(m, n, r, j0 + 1);
    assert HKey(m, r, j0) == (GridNode(m, r, j0), GridNode(m, r, j0 + 1));
  }

  /** A vertical edge of the left or right column has both ends on the perimeter. */
  lemma VerticalEndsOnPerimeter(m: nat, n: nat, i0: nat, c: nat)
    requires i0 < n && c <= m && (c == 0 || c == m)
    ensures VKey(m, i0, c).0 in PerimeterNodes(m, n) && VKey(m, i0, c).1 in PerimeterNodes(m, n)
  {
    OnPerimeter(m, n, i0, c);
    OnPerimeter(m, n, i0 + 1, c);
    NextRow(m, i0, c);
    assert VKey(m, i0, c) == (GridNode(m, i0, c), GridNode(m, i0 + 1, c));
  }

  /** A horizontal edge counted once has both ends on the perimeter. */
  lemma HorizontalOnceOnPerimeter(m: nat, n: nat, r: nat, j0: nat)
    requires m >= 1 && n >= 1 && r <= n && j0 < m
    requires Quadrilaterals(GridTopology(m, n))
    requires multiset(EdgeList(GridTopology(m, n)))[HKey(m, r, j0)] == 1
    ensures HKey(m, r, j0).0 in PerimeterNodes(m, n) && HKey(m, r, j0).1 in PerimeterNodes(m, n)
  {
    assert r == 0 || r == n by {
      HorizontalEdgeCount(m, n, r, j0);
    }
    HorizontalEndsOnPerimeter(m, n, r, j0);
  }

  /** A vertical edge counted once has both ends on the perimeter. */
  lemma VerticalOnceOnPerimeter(m: nat, n: nat, i0: nat, c: nat)
    requires m >= 1 && n >= 1 && i0 < n && c <= m
    requires Quadrilaterals(GridTopology(m, n))
    requires multiset(EdgeList(GridTopology(m, n)))[VKey(m, i0, c)] == 1
    ensures VKey(m, i0, c).0 in PerimeterNodes(m, n) && VKey(m, i0, c).1 in PerimeterNodes(m, n)
  {
    assert c == 0 || c == m by {
      VerticalEdgeCount(m, n, i0, c);
    }
    VerticalEndsOnPerimeter(m, n, i0, c);
  }

  /** A node on an edge counted once lies on the perimeter. */
  lemma BoundaryNodeOnPerimeter(m: nat, n: nat, x: int)
    requires m >= 1 && n >= 1
    ensures Quadrilaterals(GridTopology(m, n))
    ensures x in BoundaryNodes(GridTopology(m, n)) ==> x in PerimeterNodes(m, n)
  {
    var t := GridTopology(m, n);
    GridQuadrilaterals(m, n);
    var counts := multiset(EdgeList(t));
    if x in BoundaryNodes(t) {
      var key :| key in counts && counts[key] == 1 && (x == key.0 || x == key.1);
      SidesAreGridEdges(m, n, key);
      if exists r: nat, j0: nat :: r <= n && j0 < m && key == HKey(m, r, j0) {
        var r: nat, j0: nat :| r <= n && j0 < m && key == HKey(m, r, j0);
        HorizontalOnceOnPerimeter(m, n, r, j0);
      } else {
        var i0: nat, c: nat :| i0 < n && c <= m && key == VKey(m, i0, c);
        VerticalOnceOnPerimeter(m, n, i0, c);
      }
    }
  }

  /** A perimeter node is an endpoint of a perimeter edge, which is counted once. */
  lemma PerimeterNodeOnBoundary(m: nat, n: nat, x: int)
    requires m >= 1 && n >= 1
    ensures Quadrilaterals(GridTopology(m, n))
    ensures x in PerimeterNodes(m, n) ==> x in BoundaryNodes(GridTopology(m, n))
  {
    var t := GridTopology(m, n);
    GridQuadrilaterals(m, n);
    var counts := multiset(EdgeList(t));
    if x in PerimeterNodes(m, n) {
      var i: nat, j: nat :| i <= n && j <= m && (i == 0 || i == n || j == 0 || j == m) && x == GridNode(m, i, j);
      var key;
      if i == 0 || i == n {
        if j < m {
          key := HKey(m, i, j);
          HorizontalEdgeCount(m, n, i, j);
        } else {
          var left: nat := j - 1;
          key := HKey(m, i, left);
          HorizontalEdgeCount(m, n, i, left);
        }
      } else {
        key := VKey(m, i, j);
        VerticalEdgeCount(m, n, i, j);
      }
      assert counts[key] == 1 && (x == key.0 || x == key.1);
    }
  }

  /** The boundary of an m x n grid consists of exactly its perimeter nodes. */
  lemma GridBoundaryIsPerimeter(m: nat, n: nat)
    requires m >= 1 && n >= 1
    ensures Quadrilaterals(GridTopology(m, n))
    ensures BoundaryNodes(GridTopology(m, n)) == PerimeterNodes(m, n)
  {
    GridQuadrilaterals(m, n);
    forall x
      ensures x in BoundaryNodes(GridTopology(m, n)) <==> x in PerimeterNodes(m, n)
    {
      BoundaryNodeOnPerimeter(m, n, x);
      PerimeterNodeOnBoundary(m, n, x);
    }
  }
}

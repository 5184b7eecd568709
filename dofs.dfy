/** Degrees of freedom: node i carries the x-displacement 2 i and the
    y-displacement 2 i + 1. The stiffness assembly packs an element's eight
    degrees of freedom this way; the load assembly, as written, does not. */
module Dofs {

  /** Component comp (0 for x, 1 for y) of node `node`. */
  function Dof(node: int, comp: nat): int
    requires comp < 2
  {
    2 * node + comp
  }

  /** Node and component are recovered from a degree of freedom by halving. */
  lemma DofRoundTrip(node: nat, comp: nat)
    requires comp < 2
    ensures Dof(node, comp) / 2 == node && Dof(node, comp) % 2 == comp
  {
  }

  /** Distinct (node, component) pairs have distinct degrees of freedom. */
  lemma DofInjective(a: int, c: nat, b: int, d: nat)
    requires c < 2 && d < 2
    ensures Dof(a, c) == Dof(b, d) <==> a == b && c == d
  {
  }

  /** The degrees of freedom of the nodes 0 .. nNodes - 1 fill 0 .. 2 nNodes - 1. */
  lemma DofInRange(node: int, comp: nat, nNodes: nat)
    requires comp < 2
    ensures 0 <= Dof(node, comp) < 2 * nNodes <==> 0 <= node < nNodes
  {
  }

  /** The eight degrees of freedom of an element with the given corners, as the
      stiffness assembly packs them: x then y of each corner in turn. */
  function ElementDofs(corners: seq<int>): (dofs: seq<int>)
    requires |corners| == 4
    ensures |dofs| == 8
  {
    [Dof(corners[0], 0), Dof(corners[0], 1), Dof(corners[1], 0), Dof(corners[1], 1),
     Dof(corners[2], 0), Dof(corners[2], 1), Dof(corners[3], 0), Dof(corners[3], 1)]
  }

  /** Local degree of freedom l of an element is component l % 2 of corner l / 2. */
  lemma ElementDofsLayout(corners: seq<int>, l: nat)
    requires |corners| == 4 && l < 8
    ensures ElementDofs(corners)[l] == Dof(corners[l / 2], l % 2)
  {
  }

  /** A global degree of freedom p belongs to an element exactly when its
      node p / 2 is one of the element's corners. */
  lemma ElementDofsMembership(corners: seq<int>, p: int)
    requires |corners| == 4
    ensures p in ElementDofs(corners) <==> p / 2 in corners
  {
    var dofs := ElementDofs(corners);
    if p in dofs {
      var l :| 0 <= l < 8 && dofs[l] == p;
      ElementDofsLayout(corners, l);
      assert p / 2 == corners[l / 2];
    }
    if p / 2 in corners {
      var c :| 0 <= c < 4 && corners[c] == p / 2;
      ElementDofsLayout(corners, 2 * c + p % 2);
      assert dofs[2 * c + p % 2] == p;
    }
  }

  ghost predicate Distinct(s: seq<int>)
  {
    forall i, j :: 0 <= i < j < |s| ==> s[i] != s[j]
  }

  /** An element's degrees of freedom are valid indices exactly when its
      corners are nodes of the mesh. */
  lemma ElementDofsInRange(corners: seq<int>, nNodes: nat)
    requires |corners| == 4
    ensures (forall l :: 0 <= l < 8 ==> 0 <= ElementDofs(corners)[l] < 2 * nNodes)
            <==> (forall c :: 0 <= c < 4 ==> 0 <= corners[c] < nNodes)
  {
    var dofs := ElementDofs(corners);
    if forall l :: 0 <= l < 8 ==> 0 <= dofs[l] < 2 * nNodes {
      forall c | 0 <= c < 4
        ensures 0 <= corners[c] < nNodes
      {
        assert dofs[2 * c] == Dof(corners[c], 0);
      }
    }
  }

  /** Eight distinct degrees of freedom exactly when the four corners are distinct. */
  lemma ElementDofsDistinct(corners: seq<int>)
    requires |corners| == 4
    ensures Distinct(ElementDofs(corners)) <==> Distinct(corners)
  {
    var dofs := ElementDofs(corners);
    if Distinct(corners) {
      forall i, j | 0 <= i < j < 8
        ensures dofs[i] != dofs[j]
      {
        ElementDofsLayout(corners, i);
        ElementDofsLayout(corners, j);
      }
    }
    if Distinct(dofs) {
      forall i, j | 0 <= i < j < 4
        ensures corners[i] != corners[j]
      {
        assert dofs[2 * i] == Dof(corners[i], 0) && dofs[2 * j] == Dof(corners[j], 0);
      }
    }
  }

  /** The index numpy uses for idx on an axis of length len: a negative index
      counts back from the end. */
  function NumpyIndex(idx: int, len: nat): int
  {
    if idx < 0 then idx + len else idx
  }

  /** The load assembly's map as written: 2 i for x, but 2 i - 1 for y. */
  function RhsDofAsWritten(node: int, comp: nat): int
    requires comp < 2
  {
    if comp == 0 then 2 * node else 2 * node - 1
  }

  /** The load assembly's eight indices as written, after numpy's reading of
      the negative index of node 0. */
  function RhsElementDofsAsWritten(corners: seq<int>, nDofs: nat): (dofs: seq<int>)
    requires |corners| == 4
    ensures |dofs| == 8
  {
    [NumpyIndex(RhsDofAsWritten(corners[0], 0), nDofs), NumpyIndex(RhsDofAsWritten(corners[0], 1), nDofs),
     NumpyIndex(RhsDofAsWritten(corners[1], 0), nDofs), NumpyIndex(RhsDofAsWritten(corners[1], 1), nDofs),
     NumpyIndex(RhsDofAsWritten(corners[2], 0), nDofs), NumpyIndex(RhsDofAsWritten(corners[2], 1), nDofs),
     NumpyIndex(RhsDofAsWritten(corners[3], 0), nDofs), NumpyIndex(RhsDofAsWritten(corners[3], 1), nDofs)]
  }

  /** As written, the x-load goes to the right place, and the y-load of node i
      lands on the y degree of freedom of node i - 1, cyclically: node 0's
      lands on the last node's. */
  lemma AsWrittenShiftsYLoads(node: int, nNodes: nat)
    requires 0 <= node < nNodes
    ensures NumpyIndex(RhsDofAsWritten(node, 0), 2 * nNodes) == Dof(node, 0)
    ensures NumpyIndex(RhsDofAsWritten(node, 1), 2 * nNodes) == Dof((node + nNodes - 1) % nNodes, 1)
  {
    if node == 0 {
      assert (nNodes - 1) % nNodes == nNodes - 1;
    } else {
      assert (node + nNodes - 1) % nNodes == node - 1 by {
        assert node + nNodes - 1 == 1 * nNodes + (node - 1);
      }
    }
  }

  /** Hence every y-load is misplaced as soon as the mesh has two nodes. */
  lemma AsWrittenMisplacesYLoads(node: int, nNodes: nat)
    requires 0 <= node < nNodes
    ensures NumpyIndex(RhsDofAsWritten(node, 1), 2 * nNodes) != Dof(node, 1) <==> nNodes >= 2
  {
  }

  /** On the single cell of a 1 x 1 grid, corners [0, 1, 3, 2], the load of
      every y degree of freedom goes to another node's. */
  lemma AsWrittenSingleCell()
    ensures RhsElementDofsAsWritten([0, 1, 3, 2], 8) == [0, 7, 2, 1, 6, 5, 4, 3]
    ensures ElementDofs([0, 1, 3, 2]) == [0, 1, 2, 3, 6, 7, 4, 5]
  {
  }

  /** As written, corners in range still give eight indices in range, once
      numpy has read node 0's y index -1 as the last one. */
  lemma AsWrittenInRange(corners: seq<int>, nNodes: nat)
    requires |corners| == 4
    requires forall c :: 0 <= c < 4 ==> 0 <= corners[c] < nNodes
    ensures forall l :: 0 <= l < 8 ==> 0 <= RhsElementDofsAsWritten(corners, 2 * nNodes)[l] < 2 * nNodes
  {
    var dofs := RhsElementDofsAsWritten(corners, 2 * nNodes);
    forall l | 0 <= l < 8
      ensures 0 <= dofs[l] < 2 * nNodes
    {
      var c := corners[l / 2];
      assert 0 <= c < nNodes;
      assert dofs[l] == NumpyIndex(RhsDofAsWritten(c, l % 2), 2 * nNodes);
    }
  }

  /** Even as written, an element with distinct corners in range sends its
      eight loads to eight distinct valid indices, so numpy's buffered
      `f_global[dofs] += f` does add every entry. */
  lemma AsWrittenDistinct(corners: seq<int>, nNodes: nat)
    requires |corners| == 4 && Distinct(corners)
    requires forall c :: 0 <= c < 4 ==> 0 <= corners[c] < nNodes
    ensures Distinct(RhsElementDofsAsWritten(corners, 2 * nNodes))
    ensures forall l :: 0 <= l < 8 ==> 0 <= RhsElementDofsAsWritten(corners, 2 * nNodes)[l] < 2 * nNodes
  {
    var c0, c1, c2, c3 := corners[0], corners[1], corners[2], corners[3];
    var p0, p1, p2, p3 := Previous(c0, nNodes), Previous(c1, nNodes), Previous(c2, nNodes), Previous(c3, nNodes);
    assert c0 != c1 && c0 != c2 && c0 != c3 && c1 != c2 && c1 != c3 && c2 != c3;
    assert p0 != p1 && p0 != p2 && p0 != p3 && p1 != p2 && p1 != p3 && p2 != p3;
    var dofs := RhsElementDofsAsWritten(corners, 2 * nNodes);
    assert dofs == [2 * c0, 2 * p0 + 1, 2 * c1, 2 * p1 + 1, 2 * c2, 2 * p2 + 1, 2 * c3, 2 * p3 + 1];
  }

  /** The node whose y-load slot receives node c's as written: the one before,
      cyclically among nNodes nodes. */
  function Previous(c: int, nNodes: nat): int
  {
    if c == 0 then nNodes - 1 else c - 1
  }
}

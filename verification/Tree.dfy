/**
 Syntax trees as the extractors see them: finite trees of nodes, positions in a tree, and the
 pre-order listing that every walk is measured against.
 */
module Tree {
  import opened Prelude

  /** A node with its kind and the bytes of the source it spans. */
  datatype Node = Node(kind: string, named: bool, start: nat, end: nat, children: seq<Node>)

  /** A position: the child index taken at each level, from the root down. */
  type Path = seq<nat>

  predicate ValidPath(n: Node, p: Path)
    decreases |p|
  {
    p == [] || (p[0] < |n.children| && ValidPath(n.children[p[0]], p[1..]))
  }

  function At(n: Node, p: Path): Node
    requires ValidPath(n, p)
    decreases |p|
  {
    if p == [] then n else At(n.children[p[0]], p[1..])
  }

  function Parent(p: Path): Path
    requires p != []
  {
    p[..|p| - 1]
  }

  function Last(p: Path): nat
    requires p != []
  {
    p[|p| - 1]
  }

  lemma {:induction false} ChildPath(n: Node, p: Path, i: nat)
    ensures ValidPath(n, p + [i]) <==> ValidPath(n, p) && i < |At(n, p).children|
    ensures ValidPath(n, p + [i]) ==> At(n, p + [i]) == At(n, p).children[i]
    decreases |p|
  {
    if p == [] {
      assert ([] + [i])[1..] == [];
    } else {
      assert (p + [i])[1..] == p[1..] + [i];
      if p[0] < |n.children| {
        ChildPath(n.children[p[0]], p[1..], i);
      }
    }
  }

  lemma {:induction false} ParentPath(n: Node, p: Path)
    requires ValidPath(n, p) && p != []
    ensures ValidPath(n, Parent(p)) && Last(p) < |At(n, Parent(p)).children|
    ensures At(n, p) == At(n, Parent(p)).children[Last(p)]
  {
    assert p == Parent(p) + [Last(p)];
    ChildPath(n, Parent(p), Last(p));
  }

  /** Number of nodes. */
  function Size(n: Node): (s: nat)
    ensures s > 0
    decreases n, |n.children| + 1
  {
    1 + SizeFrom(n, 0)
  }

  function SizeFrom(n: Node, i: nat): nat
    requires i <= |n.children|
    decreases n, |n.children| - i
  {
    if i == |n.children| then 0 else Size(n.children[i]) + SizeFrom(n, i + 1)
  }

  // ----- pre-order -----

  /** The nodes of a tree in pre-order. */
  function PreOrder(n: Node): seq<Node>
    decreases n, |n.children| + 1
  {
    [n] + PreOrderFrom(n, 0)
  }

  function PreOrderFrom(n: Node, i: nat): seq<Node>
    requires i <= |n.children|
    decreases n, |n.children| - i
  {
    if i == |n.children| then [] else PreOrder(n.children[i]) + PreOrderFrom(n, i + 1)
  }

  /** The positions of the subtree n standing at position p, in pre-order. */
  ghost function Positions(n: Node, p: Path): (s: seq<Path>)
    ensures |s| > 0
    decreases n, |n.children| + 1
  {
    [p] + PositionsFrom(n, p, 0)
  }

  ghost function PositionsFrom(n: Node, p: Path, i: nat): seq<Path>
    requires i <= |n.children|
    decreases n, |n.children| - i
  {
    if i == |n.children| then [] else Positions(n.children[i], p + [i]) + PositionsFrom(n, p, i + 1)
  }

  /** Position q lies in the subtree n standing at p. */
  ghost predicate Below(n: Node, p: Path, q: Path) {
    p <= q && ValidPath(n, q[|p|..])
  }

  /** The listing holds exactly the positions of the tree ... */
  lemma {:induction false} PositionsExact(n: Node, p: Path, q: Path)
    ensures q in Positions(n, p) <==> Below(n, p, q)
    decreases n, |n.children| + 1
  {
    PositionsFromExact(n, p, 0, q);
    if p <= q && q != p {
      assert q[|p|..][0] == q[|p|];
    }
  }

  lemma {:induction false} PositionsFromExact(n: Node, p: Path, i: nat, q: Path)
    requires i <= |n.children|
    ensures q in PositionsFrom(n, p, i) <==>
            |p| < |q| && Below(n, p, q) && i <= q[|p|] < |n.children|
    decreases n, |n.children| - i
  {
    if i < |n.children| {
      PositionsExact(n.children[i], p + [i], q);
      PositionsFromExact(n, p, i + 1, q);
      ThroughChild(n, p, i, q);
    }
  }

  lemma {:induction false} ThroughChild(n: Node, p: Path, i: nat, q: Path)
    requires i < |n.children|
    ensures Below(n.children[i], p + [i], q) <==> |p| < |q| && Below(n, p, q) && q[|p|] == i
  {
    if p <= q && |p| < |q| {
      var r := q[|p|..];
      assert r[0] == q[|p|] && r[1..] == q[|p| + 1..];
    }
    if p + [i] <= q {
      assert q[..|p|] == p && q[|p|] == i;
      assert q[|p + [i]|..] == q[|p| + 1..];
    }
  }

  /** ... each exactly once. */
  lemma {:induction false} PositionsOnce(n: Node, p: Path)
    ensures NoRepeats(Positions(n, p))
    decreases n, |n.children| + 1
  {
    PositionsFromOnce(n, p, 0);
    PositionsFromExact(n, p, 0, p);
  }

  lemma {:induction false} PositionsFromOnce(n: Node, p: Path, i: nat)
    requires i <= |n.children|
    ensures NoRepeats(PositionsFrom(n, p, i))
    decreases n, |n.children| - i
  {
    if i < |n.children| {
      var first, rest := Positions(n.children[i], p + [i]), PositionsFrom(n, p, i + 1);
      PositionsOnce(n.children[i], p + [i]);
      PositionsFromOnce(n, p, i + 1);
      forall q | q in first && q in rest ensures false {
        PositionsExact(n.children[i], p + [i], q);
        PositionsFromExact(n, p, i + 1, q);
        ThroughChild(n, p, i, q);
      }
      DisjointOnce(first, rest);
    }
  }

  lemma {:induction false} DisjointOnce<X>(first: seq<X>, rest: seq<X>)
    requires NoRepeats(first) && NoRepeats(rest)
    requires forall q | q in first :: q !in rest
    ensures NoRepeats(first + rest)
  {
    forall i, j | 0 <= i < j < |first + rest| ensures (first + rest)[i] != (first + rest)[j] {
      if i < |first| <= j {
        assert first[i] in first && rest[j - |first|] in rest;
      }
    }
  }

  /** Reading off the nodes at the listed positions gives the pre-order of nodes. */
  lemma {:induction false} NodesAtPositions(root: Node, n: Node, p: Path)
    requires ValidPath(root, p) && At(root, p) == n
    ensures |Positions(n, p)| == |PreOrder(n)|
    ensures forall k | 0 <= k < |PreOrder(n)| ::
              ValidPath(root, Positions(n, p)[k]) && At(root, Positions(n, p)[k]) == PreOrder(n)[k]
    decreases n, |n.children| + 1
  {
    NodesAtPositionsFrom(root, n, p, 0);
  }

  lemma {:induction false} NodesAtPositionsFrom(root: Node, n: Node, p: Path, i: nat)
    requires ValidPath(root, p) && At(root, p) == n && i <= |n.children|
    ensures |PositionsFrom(n, p, i)| == |PreOrderFrom(n, i)|
    ensures forall k | 0 <= k < |PreOrderFrom(n, i)| ::
              ValidPath(root, PositionsFrom(n, p, i)[k]) && At(root, PositionsFrom(n, p, i)[k]) == PreOrderFrom(n, i)[k]
    decreases n, |n.children| - i
  {
    if i < |n.children| {
      ChildPath(root, p, i);
      NodesAtPositions(root, n.children[i], p + [i]);
      NodesAtPositionsFrom(root, n, p, i + 1);
    }
  }

  // ----- the cursor -----

  /** The positions a cursor at p still has to visit after p's subtree. */
  ghost function After(root: Node, p: Path): seq<Path>
    requires ValidPath(root, p)
    decreases |p|
  {
    if p == [] then []
    else
      ParentPath(root, p);
      PositionsFrom(At(root, Parent(p)), Parent(p), Last(p) + 1) + After(root, Parent(p))
  }

  /** The positions from p on, p first. */
  ghost function From(root: Node, p: Path): (s: seq<Path>)
    requires ValidPath(root, p)
    ensures |s| > 0 && |s| > |After(root, p)|
  {
    Positions(At(root, p), p) + After(root, p)
  }

  lemma {:induction false} LastStep(p: Path, i: nat)
    ensures Parent(p + [i]) == p && Last(p + [i]) == i
  {
  }

  lemma {:induction false} AfterUnfolds(root: Node, q: Path)
    requires ValidPath(root, q) && q != []
    ensures ValidPath(root, Parent(q)) && Last(q) < |At(root, Parent(q)).children|
    ensures After(root, q) == PositionsFrom(At(root, Parent(q)), Parent(q), Last(q) + 1) + After(root, Parent(q))
  {
    ParentPath(root, q);
  }

  /** After a child's subtree come its later siblings, then what comes after the parent's. */
  lemma {:induction false} AfterChild(root: Node, p: Path, i: nat)
    requires ValidPath(root, p) && i < |At(root, p).children|
    ensures ValidPath(root, p + [i]) && At(root, p + [i]) == At(root, p).children[i]
    ensures After(root, p + [i]) == PositionsFrom(At(root, p), p, i + 1) + After(root, p)
  {
    ChildPath(root, p, i);
    LastStep(p, i);
    AfterUnfolds(root, p + [i]);
  }

  lemma {:induction false} PositionsFromUnfolds(n: Node, p: Path, i: nat)
    requires i < |n.children|
    ensures PositionsFrom(n, p, i) == Positions(n.children[i], p + [i]) + PositionsFrom(n, p, i + 1)
  {
  }

  lemma {:induction false} Reassociate<X>(a: seq<X>, b: seq<X>, c: seq<X>)
    ensures a + b + c == a + (b + c)
  {
  }

  /** The positions from child i on: its own, its later siblings', and what comes after the parent's. */
  lemma {:induction false} FromChild(root: Node, p: Path, i: nat)
    requires ValidPath(root, p) && i < |At(root, p).children|
    ensures ValidPath(root, p + [i]) && From(root, p + [i]) == PositionsFrom(At(root, p), p, i) + After(root, p)
  {
    var n := At(root, p);
    AfterChild(root, p, i);
    PositionsFromUnfolds(n, p, i);
    Reassociate(Positions(n.children[i], p + [i]), PositionsFrom(n, p, i + 1), After(root, p));
  }

  lemma {:induction false} FromFirstChild(root: Node, p: Path)
    requires ValidPath(root, p) && At(root, p).children != []
    ensures ValidPath(root, p + [0]) && From(root, p) == [p] + From(root, p + [0])
  {
    FromChild(root, p, 0);
    Reassociate([p], PositionsFrom(At(root, p), p, 0), After(root, p));
  }

  lemma {:induction false} FromLeaf(root: Node, p: Path)
    requires ValidPath(root, p) && At(root, p).children == []
    ensures From(root, p) == [p] + After(root, p)
  {
    assert PositionsFrom(At(root, p), p, 0) == [];
  }

  lemma {:induction false} AfterSibling(root: Node, p: Path)
    requires ValidPath(root, p) && p != [] && ValidPath(root, Parent(p) + [Last(p) + 1])
    ensures After(root, p) == From(root, Parent(p) + [Last(p) + 1])
  {
    AfterUnfolds(root, p);
    ChildPath(root, Parent(p), Last(p) + 1);
    FromChild(root, Parent(p), Last(p) + 1);
  }

  lemma {:induction false} AfterLastSibling(root: Node, p: Path)
    requires ValidPath(root, p) && p != [] && !ValidPath(root, Parent(p) + [Last(p) + 1])
    ensures ValidPath(root, Parent(p)) && After(root, p) == After(root, Parent(p))
  {
    ParentPath(root, p);
    ChildPath(root, Parent(p), Last(p) + 1);
    assert PositionsFrom(At(root, Parent(p)), Parent(p), Last(p) + 1) == [];
  }

  /** `TSTreeCursor`: a position that moves; every move reports whether it was possible. */
  class Cursor {
    const root: Node
    var path: Path

    ghost predicate Valid()
      reads this
    {
      ValidPath(root, path)
    }

    constructor (root: Node)
      ensures Valid() && this.root == root && path == []
    {
      this.root, path := root, [];
    }

    method CurrentNode() returns (n: Node)
      requires Valid()
      ensures n == At(root, path)
    {
      n := At(root, path);
    }

    method GotoFirstChild() returns (moved: bool)
      requires Valid()
      modifies this
      ensures Valid()
      ensures moved <==> At(root, old(path)).children != []
      ensures path == if moved then old(path) + [0] else old(path)
    {
      moved := At(root, path).children != [];
      ChildPath(root, path, 0);
      if moved {
        path := path + [0];
      }
    }

    method GotoNextSibling() returns (moved: bool)
      requires Valid()
      modifies this
      ensures Valid()
      ensures moved <==> old(path) != [] && ValidPath(root, Parent(old(path)) + [Last(old(path)) + 1])
      ensures path == if moved then Parent(old(path)) + [Last(old(path)) + 1] else old(path)
    {
      moved := false;
      if path != [] {
        ParentPath(root, path);
        ChildPath(root, Parent(path), Last(path) + 1);
        if Last(path) + 1 < |At(root, Parent(path)).children| {
          path := Parent(path) + [Last(path) + 1];
          moved := true;
        }
      }
    }

    method GotoParent() returns (moved: bool)
      requires Valid()
      modifies this
      ensures Valid()
      ensures moved <==> old(path) != []
      ensures path == if moved then Parent(old(path)) else old(path)
    {
      moved := path != [];
      if moved {
        ParentPath(root, path);
        path := Parent(path);
      }
    }
  }
}

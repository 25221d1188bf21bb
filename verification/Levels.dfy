/** The proper ancestors of a position by their level, and which levels meet a test. */
module Levels {
  import opened Tree

  lemma {:induction false} PrefixPath(root: Node, p: Path, k: nat)
    requires ValidPath(root, p) && k <= |p|
    ensures ValidPath(root, p[..k])
    decreases |p|
  {
    if k < |p| {
      ParentPath(root, p);
      PrefixPath(root, Parent(p), k);
      assert Parent(p)[..k] == p[..k];
    } else {
      assert p[..k] == p;
    }
  }

  /** The proper ancestor of p at level k satisfies the test. */
  ghost predicate AncestorIs(root: Node, p: Path, test: Node -> bool, k: nat) {
    k < |p| && ValidPath(root, p[..k]) && test(At(root, p[..k]))
  }

  ghost function LevelsWhere(root: Node, p: Path, test: Node -> bool): set<nat> {
    set k: nat | k < |p| && AncestorIs(root, p, test, k)
  }

  lemma SameAncestor(root: Node, p: Path, test: Node -> bool, k: nat)
    requires ValidPath(root, p) && p != [] && k < |p|
    ensures ValidPath(root, Parent(p))
    ensures AncestorIs(root, p, test, k) <==>
            if k == |p| - 1 then test(At(root, Parent(p))) else AncestorIs(root, Parent(p), test, k)
  {
    ParentPath(root, p);
    assert p[..k] == Parent(p)[..k];
  }

  lemma LevelsStep(root: Node, p: Path, test: Node -> bool)
    requires ValidPath(root, p) && p != []
    ensures ValidPath(root, Parent(p))
    ensures LevelsWhere(root, p, test) ==
            LevelsWhere(root, Parent(p), test) + (if test(At(root, Parent(p))) then {|p| - 1} else {})
    ensures |LevelsWhere(root, p, test)| ==
            |LevelsWhere(root, Parent(p), test)| + if test(At(root, Parent(p))) then 1 else 0
  {
    LevelsSplit(root, p, test);
  }

  lemma LevelsSplit(root: Node, p: Path, test: Node -> bool)
    requires ValidPath(root, p) && p != []
    ensures ValidPath(root, Parent(p))
    ensures LevelsWhere(root, p, test) ==
            LevelsWhere(root, Parent(p), test) + (if test(At(root, Parent(p))) then {|p| - 1} else {})
  {
    SameAncestor(root, p, test, |p| - 1);
    forall k: nat | k < |p| - 1 ensures AncestorIs(root, p, test, k) <==> AncestorIs(root, Parent(p), test, k) {
      SameAncestor(root, p, test, k);
    }
  }
}

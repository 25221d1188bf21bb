/**
 The complexity metrics by positions: counts of nodes of a kind, and nesting as the number of
 ancestors of a kind. Frames, which the walk carries from parent to child, do not occur.
 */
module Nesting {
  import opened Prelude
  import opened Tree
  import opened Levels
  import opened NodeStack
  import opened CappedWalk
  import opened Complexity

  // ----- what a position contributes -----

  ghost function BranchesAbove(k: Kinds, root: Node, p: Path): nat {
    |LevelsWhere(root, p, (n: Node) => n.kind in k.branching)|
  }

  ghost function LoopsAbove(k: Kinds, root: Node, p: Path): nat {
    |LevelsWhere(root, p, (n: Node) => n.named && n.kind in k.loops)|
  }

  /** The number of consecutive access nodes that end at p, going down. */
  ghost function AccessRun(k: Kinds, root: Node, p: Path): nat
    requires ValidPath(root, p)
    decreases |p|
  {
    var n := At(root, p);
    if !(n.named && n.kind in k.accesses) then 0
    else if p == [] then 1
    else
      ParentPath(root, p);
      1 + AccessRun(k, root, Parent(p))
  }

  ghost predicate BranchAt(k: Kinds, root: Node, p: Path) {
    ValidPath(root, p) && At(root, p).kind in k.branching
  }

  ghost predicate LoopAt(k: Kinds, root: Node, p: Path) {
    ValidPath(root, p) && At(root, p).named && At(root, p).kind in k.loops
  }

  /** The loops on the path from the root to p, both ends counted. */
  ghost function LoopsDown(k: Kinds, root: Node, p: Path): nat {
    LoopsAbove(k, root, p) + if LoopAt(k, root, p) then 1 else 0
  }

  ghost function Contribution(k: Kinds, root: Node, p: Path): Metrics
    requires ValidPath(root, p)
  {
    Metrics(if BranchAt(k, root, p) then 1 else 0,
            if BranchAt(k, root, p) then 1 + BranchesAbove(k, root, p) else 0,
            if LoopAt(k, root, p) then 1 else 0,
            if LoopAt(k, root, p) then 1 + LoopsAbove(k, root, p) else 0,
            AccessRun(k, root, p))
  }

  // ----- the frame of a position -----

  /** The frame that reaches position p, handed down from the root. */
  ghost function FrameAt(k: Kinds, root: Node, p: Path): (f: Frame)
    requires ValidPath(root, p)
    ensures f.node == At(root, p)
    decreases |p|
  {
    if p == [] then Frame(root, 0, 0, 0)
    else
      ParentPath(root, p);
      Child(k, FrameAt(k, root, Parent(p)), Last(p))
  }

  lemma {:induction false} FrameOfChild(k: Kinds, root: Node, p: Path, i: nat)
    requires ValidPath(root, p) && i < |At(root, p).children|
    ensures ValidPath(root, p + [i]) && FrameAt(k, root, p + [i]) == Child(k, FrameAt(k, root, p), i)
  {
    ChildPath(root, p, i);
    LastStep(p, i);
  }

  /** The depths in a frame count the ancestors of each kind ... */
  lemma {:induction false} FrameDepths(k: Kinds, root: Node, p: Path)
    requires ValidPath(root, p)
    ensures FrameAt(k, root, p).bdepth == BranchesAbove(k, root, p)
    ensures FrameAt(k, root, p).ldepth == LoopsAbove(k, root, p)
    decreases |p|
  {
    if p != [] {
      ParentPath(root, p);
      FrameDepths(k, root, Parent(p));
      LevelsStep(root, p, (n: Node) => n.kind in k.branching);
      LevelsStep(root, p, (n: Node) => n.named && n.kind in k.loops);
    }
  }

  /** ... and the accesses next above it. */
  lemma {:induction false} FrameRun(k: Kinds, root: Node, p: Path)
    requires ValidPath(root, p)
    ensures AccessRun(k, root, p) ==
            if At(root, p).named && At(root, p).kind in k.accesses then 1 + FrameAt(k, root, p).adepth else 0
    decreases |p|
  {
    if p != [] {
      ParentPath(root, p);
      FrameRun(k, root, Parent(p));
    }
  }

  lemma {:induction false} FrameMeaning(k: Kinds, root: Node, p: Path)
    requires ValidPath(root, p)
    ensures Local(k, FrameAt(k, root, p)) == Contribution(k, root, p)
  {
    FrameDepths(k, root, p);
    FrameRun(k, root, p);
  }

  // ----- sums over positions -----

  ghost predicate AllValid(root: Node, ps: seq<Path>) {
    forall i | 0 <= i < |ps| :: ValidPath(root, ps[i])
  }

  ghost function FramesAt(k: Kinds, root: Node, ps: seq<Path>): (fs: seq<Frame>)
    requires AllValid(root, ps)
    ensures |fs| == |ps| && forall i | 0 <= i < |ps| :: fs[i] == FrameAt(k, root, ps[i])
  {
    if ps == [] then [] else [FrameAt(k, root, ps[0])] + FramesAt(k, root, ps[1..])
  }

  lemma {:induction false} FramesConcat(k: Kinds, root: Node, a: seq<Path>, b: seq<Path>)
    requires AllValid(root, a) && AllValid(root, b)
    ensures AllValid(root, a + b) && FramesAt(k, root, a + b) == FramesAt(k, root, a) + FramesAt(k, root, b)
  {
  }

  lemma {:induction false} SumCons(k: Kinds, f: Frame, fs: seq<Frame>)
    ensures Sum(k, [f] + fs) == Plus(Local(k, f), Sum(k, fs))
  {
    assert ([f] + fs)[1..] == fs;
  }

  lemma {:induction false} SumConcat(k: Kinds, a: seq<Frame>, b: seq<Frame>)
    requires a != []
    ensures Sum(k, a + b) == Plus(Sum(k, a), Sum(k, b))
  {
    var f, rest := a[0], a[1..];
    if |a| == 1 {
      assert a == [f];
      PlusNothing(k, Local(k, f));
      SumCons(k, f, b);
    } else {
      assert a + b == [f] + (rest + b);
      SumCons(k, f, rest + b);
      SumConcat(k, rest, b);
      PlusAssoc(Local(k, f), Sum(k, rest), Sum(k, b));
    }
  }

  /** The recursive metrics of the subtree at p are what the frames of its positions contribute. */
  lemma {:induction false} FullByPosition(k: Kinds, root: Node, n: Node, p: Path)
    requires ValidPath(root, p) && At(root, p) == n
    ensures AllValid(root, Positions(n, p))
    ensures Full(k, FrameAt(k, root, p)) == Sum(k, FramesAt(k, root, Positions(n, p)))
    decreases n, |n.children| + 1
  {
    var rest := PositionsFrom(n, p, 0);
    FullFromByPosition(k, root, n, p, 0);
    assert AllValid(root, [p] + rest) && FramesAt(k, root, [p] + rest) == [FrameAt(k, root, p)] + FramesAt(k, root, rest);
    SumCons(k, FrameAt(k, root, p), FramesAt(k, root, rest));
  }

  lemma {:induction false} FullFromByPosition(k: Kinds, root: Node, n: Node, p: Path, i: nat)
    requires ValidPath(root, p) && At(root, p) == n && i <= |n.children|
    ensures AllValid(root, PositionsFrom(n, p, i))
    ensures FullFrom(k, FrameAt(k, root, p), i) == Sum(k, FramesAt(k, root, PositionsFrom(n, p, i)))
    decreases n, |n.children| - i
  {
    if i < |n.children| {
      var first, later := Positions(n.children[i], p + [i]), PositionsFrom(n, p, i + 1);
      FrameOfChild(k, root, p, i);
      ChildPath(root, p, i);
      FullByPosition(k, root, n.children[i], p + [i]);
      FullFromByPosition(k, root, n, p, i + 1);
      FramesConcat(k, root, first, later);
      SumConcat(k, FramesAt(k, root, first), FramesAt(k, root, later));
    }
  }

  /** What a sequence of positions contributes. */
  ghost function Contributions(k: Kinds, root: Node, ps: seq<Path>): Metrics
    requires AllValid(root, ps)
  {
    if ps == [] then Nothing(k) else Plus(Contribution(k, root, ps[0]), Contributions(k, root, ps[1..]))
  }

  lemma {:induction false} FramesContribute(k: Kinds, root: Node, ps: seq<Path>)
    requires AllValid(root, ps)
    ensures Sum(k, FramesAt(k, root, ps)) == Contributions(k, root, ps)
  {
    if ps != [] {
      FramesContribute(k, root, ps[1..]);
      FrameMeaning(k, root, ps[0]);
      SumCons(k, FrameAt(k, root, ps[0]), FramesAt(k, root, ps[1..]));
    }
  }

  // ----- each metric by itself -----

  ghost function BranchPositions(k: Kinds, root: Node, ps: seq<Path>): set<Path> {
    set p | p in ps && BranchAt(k, root, p)
  }

  ghost function LoopPositions(k: Kinds, root: Node, ps: seq<Path>): set<Path> {
    set p | p in ps && LoopAt(k, root, p)
  }

  /** The sum over the branching positions of one plus the branches above. */
  ghost function NestingSum(k: Kinds, root: Node, ps: seq<Path>): nat {
    if ps == [] then 0
    else (if BranchAt(k, root, ps[0]) then 1 + BranchesAbove(k, root, ps[0]) else 0) + NestingSum(k, root, ps[1..])
  }

  lemma {:induction false} FirstApart(ps: seq<Path>)
    requires ps != [] && NoRepeats(ps)
    ensures NoRepeats(ps[1..]) && ps[0] !in ps[1..]
    ensures forall p :: p in ps <==> p == ps[0] || p in ps[1..]
  {
    assert ps == [ps[0]] + ps[1..];
  }

  lemma {:induction false} BranchesFirst(k: Kinds, root: Node, ps: seq<Path>)
    requires ps != [] && NoRepeats(ps)
    ensures |BranchPositions(k, root, ps)| ==
            |BranchPositions(k, root, ps[1..])| + if BranchAt(k, root, ps[0]) then 1 else 0
  {
    FirstApart(ps);
    assert BranchPositions(k, root, ps) ==
           BranchPositions(k, root, ps[1..]) + if BranchAt(k, root, ps[0]) then {ps[0]} else {};
  }

  lemma {:induction false} LoopsFirst(k: Kinds, root: Node, ps: seq<Path>)
    requires ps != [] && NoRepeats(ps)
    ensures |LoopPositions(k, root, ps)| ==
            |LoopPositions(k, root, ps[1..])| + if LoopAt(k, root, ps[0]) then 1 else 0
  {
    FirstApart(ps);
    assert LoopPositions(k, root, ps) ==
           LoopPositions(k, root, ps[1..]) + if LoopAt(k, root, ps[0]) then {ps[0]} else {};
  }

  lemma {:induction false} SumsOfContributions(k: Kinds, root: Node, ps: seq<Path>)
    requires AllValid(root, ps) && NoRepeats(ps)
    ensures var m := Contributions(k, root, ps);
            && m.cyclomatic == |BranchPositions(k, root, ps)|
            && m.cognitive == NestingSum(k, root, ps)
            && m.loopCount == |LoopPositions(k, root, ps)|
  {
    if ps != [] {
      FirstApart(ps);
      BranchesFirst(k, root, ps);
      LoopsFirst(k, root, ps);
      SumsOfContributions(k, root, ps[1..]);
    }
  }

  /** The depths are bounds of what each position contributes, and one of them is met. */
  lemma {:induction false} DepthsOfContributions(k: Kinds, root: Node, ps: seq<Path>)
    requires AllValid(root, ps)
    ensures var m := Contributions(k, root, ps);
            && (forall p | p in ps :: LoopsIfLoop(k, root, p) <= m.loopDepth && AccessRun(k, root, p) <= m.maxAccessDepth)
            && (m.loopDepth == 0 || exists p :: p in ps && LoopsIfLoop(k, root, p) == m.loopDepth)
            && (m.maxAccessDepth == 0 || exists p :: p in ps && AccessRun(k, root, p) == m.maxAccessDepth)
  {
    if ps != [] {
      assert ps == [ps[0]] + ps[1..];
      DepthsOfContributions(k, root, ps[1..]);
    }
  }

  ghost function LoopsIfLoop(k: Kinds, root: Node, p: Path): nat {
    if LoopAt(k, root, p) then LoopsDown(k, root, p) else 0
  }

  /** Below a node that is no loop there are no more loops than on the way to it. */
  lemma {:induction false} LoopsDownBounded(k: Kinds, root: Node, p: Path, m: nat)
    requires ValidPath(root, p)
    requires forall q | ValidPath(root, q) :: LoopsIfLoop(k, root, q) <= m
    ensures LoopsDown(k, root, p) <= m
    decreases |p|
  {
    if LoopAt(k, root, p) {
      assert LoopsIfLoop(k, root, p) <= m;
    } else if p != [] {
      ParentPath(root, p);
      LoopsDownBounded(k, root, Parent(p), m);
      LevelsStep(root, p, (n: Node) => n.named && n.kind in k.loops);
    }
  }

  lemma {:induction false} ValidListed(root: Node, p: Path)
    ensures p in Positions(root, []) <==> ValidPath(root, p)
  {
    PositionsExact(root, [], p);
    assert p[0..] == p;
  }

  /**
   The metrics of a tree, by its positions alone: the number of branching and of loop positions;
   every branching position weighs one more than the branches above it; the most loops on a path
   from the root; the longest run of access nodes on a path.
   */
  lemma {:induction false} MetricsByPosition(k: Kinds, root: Node)
    ensures var m, ps := Full(k, Frame(root, 0, 0, 0)), Positions(root, []);
            && m.cyclomatic == |BranchPositions(k, root, ps)|
            && m.cognitive == NestingSum(k, root, ps)
            && m.loopCount == |LoopPositions(k, root, ps)|
    ensures var m := Full(k, Frame(root, 0, 0, 0));
            && (forall p | ValidPath(root, p) :: LoopsDown(k, root, p) <= m.loopDepth)
            && (exists p :: ValidPath(root, p) && LoopsDown(k, root, p) == m.loopDepth)
            && (forall p | ValidPath(root, p) :: AccessRun(k, root, p) <= m.maxAccessDepth)
            && (exists p :: ValidPath(root, p) && AccessRun(k, root, p) == m.maxAccessDepth)
  {
    var m, ps := Full(k, Frame(root, 0, 0, 0)), Positions(root, []);
    FullByPosition(k, root, root, []);
    FramesContribute(k, root, ps);
    PositionsOnce(root, []);
    SumsOfContributions(k, root, ps);
    DepthsByPosition(k, root, m);
  }

  lemma {:induction false} DepthsByPosition(k: Kinds, root: Node, m: Metrics)
    requires AllValid(root, Positions(root, [])) && m == Contributions(k, root, Positions(root, []))
    ensures forall p | ValidPath(root, p) :: LoopsDown(k, root, p) <= m.loopDepth
    ensures exists p :: ValidPath(root, p) && LoopsDown(k, root, p) == m.loopDepth
    ensures forall p | ValidPath(root, p) :: AccessRun(k, root, p) <= m.maxAccessDepth
    ensures exists p :: ValidPath(root, p) && AccessRun(k, root, p) == m.maxAccessDepth
  {
    var ps := Positions(root, []);
    DepthsOfContributions(k, root, ps);
    forall p | ValidPath(root, p)
      ensures LoopsIfLoop(k, root, p) <= m.loopDepth && AccessRun(k, root, p) <= m.maxAccessDepth
    {
      ValidListed(root, p);
    }
    forall p | ValidPath(root, p) ensures LoopsDown(k, root, p) <= m.loopDepth {
      LoopsDownBounded(k, root, p, m.loopDepth);
    }
    assert ValidPath(root, []);
    assert LoopsDown(k, root, []) <= m.loopDepth && AccessRun(k, root, []) <= m.maxAccessDepth;
  }

  // ----- the capped walk -----

  /** A frame of the walk stands for a position of the tree. */
  ghost predicate Placed(k: Kinds, root: Node, f: Frame) {
    exists p :: ValidPath(root, p) && f == FrameAt(k, root, p)
  }

  ghost predicate AllPlaced(k: Kinds, root: Node, fs: seq<Frame>) {
    forall i | 0 <= i < |fs| :: Placed(k, root, fs[i])
  }

  lemma {:induction false} ChildrenPlaced(k: Kinds, root: Node, rest: seq<Frame>, f: Frame)
    requires |rest| <= CAP && AllPlaced(k, root, rest) && Placed(k, root, f)
    ensures AllPlaced(k, root, WithChildren(rest, Children(k, f), CAP))
  {
    var stack := WithChildren(rest, Children(k, f), CAP);
    forall i | 0 <= i < |stack| ensures Placed(k, root, stack[i]) {
      if i < |rest| {
        assert stack[i] == rest[i];
      } else {
        var j :| 0 <= j < |f.node.children| && stack[i] == Children(k, f)[j];
        ChildPlaced(k, root, f, j);
      }
    }
  }

  lemma {:induction false} ChildPlaced(k: Kinds, root: Node, f: Frame, i: nat)
    requires Placed(k, root, f) && i < |f.node.children|
    ensures Placed(k, root, Children(k, f)[i])
  {
    var p :| ValidPath(root, p) && f == FrameAt(k, root, p);
    FrameOfChild(k, root, p, i);
    ChildrenAt(k, f, i);
  }

  /** Also where the stack overflows, every node visited is measured in the nesting of its position. */
  lemma {:induction false} VisitsPlaced(k: Kinds, root: Node, stack: seq<Frame>)
    requires |stack| <= CAP && AllPlaced(k, root, stack)
    ensures AllPlaced(k, root, CappedFrames(k, stack))
    decreases Weight(Nodes(stack))
  {
    if stack != [] {
      var f, rest := stack[|stack| - 1], stack[..|stack| - 1];
      assert rest + [f] == stack;
      FramesFall(k, rest, f);
      ChildrenPlaced(k, root, rest, f);
      VisitsPlaced(k, root, WithChildren(rest, Children(k, f), CAP));
      FramesStep(k, rest, f);
      PlacedCons(k, root, f, CappedFrames(k, WithChildren(rest, Children(k, f), CAP)));
    }
  }

  lemma {:induction false} PlacedCons(k: Kinds, root: Node, f: Frame, fs: seq<Frame>)
    requires Placed(k, root, f) && AllPlaced(k, root, fs)
    ensures AllPlaced(k, root, [f] + fs)
  {
  }

  /** The positions that placed frames stand for. */
  lemma {:induction false} PositionsOfFrames(k: Kinds, root: Node, fs: seq<Frame>) returns (qs: seq<Path>)
    requires AllPlaced(k, root, fs)
    ensures AllValid(root, qs) && fs == FramesAt(k, root, qs)
  {
    if fs == [] {
      qs := [];
    } else {
      var p :| ValidPath(root, p) && fs[0] == FrameAt(k, root, p);
      var rest := PositionsOfFrames(k, root, fs[1..]);
      qs := [p] + rest;
      assert fs == [fs[0]] + fs[1..];
    }
  }

  /**
   For every tree, truncated or not: the counted metrics are the contributions of positions whose
   nodes are the nodes visited, in order.
   */
  lemma {:induction false} CountedByPosition(k: Kinds, root: Node) returns (qs: seq<Path>)
    ensures |qs| == |CappedVisits([root], CAP)| && AllValid(root, qs)
    ensures forall i | 0 <= i < |qs| :: At(root, qs[i]) == CappedVisits([root], CAP)[i]
    ensures Counts(k, root) == Contributions(k, root, qs)
  {
    assert FrameAt(k, root, []) == Frame(root, 0, 0, 0);
    assert Placed(k, root, First(root)[0]);
    VisitsPlaced(k, root, First(root));
    qs := PositionsOfFrames(k, root, CappedFrames(k, First(root)));
    FramesContribute(k, root, qs);
    FramesAreVisits(k, First(root));
    assert Nodes(First(root)) == [root];
  }
}

/**
 The complexity walk `cbm_compute_complexity` and the branching count `cbm_count_branching`:
 explicit stacks of 4096 entries that drop what does not fit, measured against the recursive
 definition of the metrics.
 */
module Complexity {
  import opened Prelude
  import opened Tree
  import opened NodeStack
  import opened CappedWalk

  const CAP: nat := 4096

  // ----- the metrics, recursively -----

  /** Node-type tables; any tables will do. */
  datatype Kinds = Kinds(branching: seq<string>, loops: seq<string>, accesses: seq<string>)

  datatype Metrics = Metrics(cyclomatic: nat, cognitive: nat, loopCount: nat, loopDepth: nat, maxAccessDepth: nat)

  /** The metrics of no nodes at all, the same for every table. */
  function Nothing(k: Kinds): Metrics {
    Metrics(0, 0, 0, 0, 0)
  }

  /** A node with the nesting that encloses it. */
  datatype Frame = Frame(node: Node, bdepth: nat, ldepth: nat, adepth: nat)

  predicate IsBranch(k: Kinds, n: Node) {
    n.kind in k.branching
  }

  predicate IsLoop(k: Kinds, n: Node) {
    n.named && n.kind in k.loops
  }

  predicate IsAccess(k: Kinds, n: Node) {
    n.named && n.kind in k.accesses
  }

  function Max(a: nat, b: nat): nat {
    if a < b then b else a
  }

  /** Counts add up, depths take the maximum. */
  function Plus(a: Metrics, b: Metrics): Metrics {
    Metrics(a.cyclomatic + b.cyclomatic, a.cognitive + b.cognitive, a.loopCount + b.loopCount,
            Max(a.loopDepth, b.loopDepth), Max(a.maxAccessDepth, b.maxAccessDepth))
  }

  ghost predicate AtMost(a: Metrics, b: Metrics) {
    && a.cyclomatic <= b.cyclomatic && a.cognitive <= b.cognitive && a.loopCount <= b.loopCount
    && a.loopDepth <= b.loopDepth && a.maxAccessDepth <= b.maxAccessDepth
  }

  /** What one node contributes. */
  function Local(k: Kinds, f: Frame): Metrics {
    Metrics(if IsBranch(k, f.node) then 1 else 0,
            if IsBranch(k, f.node) then 1 + f.bdepth else 0,
            if IsLoop(k, f.node) then 1 else 0,
            if IsLoop(k, f.node) then f.ldepth + 1 else 0,
            if IsAccess(k, f.node) then f.adepth + 1 else 0)
  }

  /** The frame of child i: branches and loops nest, a chain of accesses is cut by any other node. */
  function Child(k: Kinds, f: Frame, i: nat): Frame
    requires i < |f.node.children|
  {
    Frame(f.node.children[i],
          f.bdepth + (if IsBranch(k, f.node) then 1 else 0),
          f.ldepth + (if IsLoop(k, f.node) then 1 else 0),
          if IsAccess(k, f.node) then f.adepth + 1 else 0)
  }

  /** The metrics of a subtree in its nesting: the definition the walk has to meet. */
  ghost function Full(k: Kinds, f: Frame): Metrics
    decreases f.node, |f.node.children| + 1
  {
    Plus(Local(k, f), FullFrom(k, f, 0))
  }

  ghost function FullFrom(k: Kinds, f: Frame, i: nat): Metrics
    requires i <= |f.node.children|
    decreases f.node, |f.node.children| - i
  {
    if i == |f.node.children| then Nothing(k) else Plus(Full(k, Child(k, f, i)), FullFrom(k, f, i + 1))
  }

  /** The metrics of the first i children. */
  ghost function FullUpTo(k: Kinds, f: Frame, i: nat): Metrics
    requires i <= |f.node.children|
  {
    if i == 0 then Nothing(k) else Plus(FullUpTo(k, f, i - 1), Full(k, Child(k, f, i - 1)))
  }

  lemma {:induction false} PlusAssoc(a: Metrics, b: Metrics, c: Metrics)
    ensures Plus(Plus(a, b), c) == Plus(a, Plus(b, c))
  {
  }

  lemma {:induction false} FullSplit(k: Kinds, f: Frame, i: nat)
    requires i <= |f.node.children|
    ensures FullFrom(k, f, 0) == Plus(FullUpTo(k, f, i), FullFrom(k, f, i))
  {
    if i > 0 {
      FullSplit(k, f, i - 1);
      PlusAssoc(FullUpTo(k, f, i - 1), Full(k, Child(k, f, i - 1)), FullFrom(k, f, i));
    }
  }

  // ----- counting branches alone -----

  ghost function CountBranches(k: Kinds, ns: seq<Node>): nat {
    if ns == [] then 0 else (if IsBranch(k, ns[0]) then 1 else 0) + CountBranches(k, ns[1..])
  }

  /** `count_branching_iter` */
  method CountBranching(k: Kinds, root: Node) returns (count: nat)
    ensures count == CountBranches(k, CappedVisits([root], CAP))
  {
    var stack := new CappedStack<Node>(root, CAP);
    count := 0;
    while stack.top > 0
      invariant stack.Valid() && stack.cap == CAP && fresh(stack) && fresh(stack.items)
      invariant count + CountBranches(k, CappedVisits(stack.Contents(), CAP)) == CountBranches(k, CappedVisits([root], CAP))
      decreases Weight(stack.Contents())
    {
      var node := stack.Pop();
      WeightFalls(stack.Contents(), node, CAP);
      VisitsStep(stack.Contents(), node, CAP);
      if IsBranch(k, node) {
        count := count + 1;
      }
      stack.PushChildren(node.children);
    }
  }

  // ----- the walk with frames -----

  /** The frames of a node's children. */
  ghost function Children(k: Kinds, f: Frame): (fs: seq<Frame>)
    ensures |fs| == |f.node.children| && forall i | 0 <= i < |fs| :: fs[i].node == f.node.children[i]
  {
    ChildrenTo(k, f, |f.node.children|)
  }

  ghost function ChildrenTo(k: Kinds, f: Frame, n: nat): (fs: seq<Frame>)
    requires n <= |f.node.children|
    ensures |fs| == n && forall i | 0 <= i < n :: fs[i].node == f.node.children[i]
  {
    if n == 0 then [] else ChildrenTo(k, f, n - 1) + [Child(k, f, n - 1)]
  }

  lemma {:induction false} ChildrenToAt(k: Kinds, f: Frame, n: nat, i: nat)
    requires i < n <= |f.node.children|
    ensures ChildrenTo(k, f, n)[i] == Child(k, f, i)
  {
    if i < n - 1 {
      ChildrenToAt(k, f, n - 1, i);
    }
  }

  lemma {:induction false} ChildrenAt(k: Kinds, f: Frame, i: nat)
    requires i < |f.node.children|
    ensures Children(k, f)[i] == Child(k, f, i)
  {
    ChildrenToAt(k, f, |f.node.children|, i);
  }

  ghost function Nodes(fs: seq<Frame>): (ns: seq<Node>)
    ensures |ns| == |fs| && forall i | 0 <= i < |fs| :: ns[i] == fs[i].node
  {
    seq(|fs|, i requires 0 <= i < |fs| => fs[i].node)
  }

  lemma {:induction false} NodesSnoc(rest: seq<Frame>, f: Frame)
    ensures Nodes(rest + [f]) == Nodes(rest) + [f.node]
  {
  }

  lemma {:induction false} NodesOfPushed(k: Kinds, rest: seq<Frame>, f: Frame)
    requires |rest| <= CAP
    ensures Nodes(WithChildren(rest, Children(k, f), CAP)) == WithChildren(Nodes(rest), f.node.children, CAP)
  {
    NodesWith(rest, Children(k, f), f.node.children, CAP);
  }

  lemma {:induction false} NodesWith(rest: seq<Frame>, fs: seq<Frame>, ns: seq<Node>, cap: nat)
    requires |rest| <= cap && |fs| == |ns| && forall i | 0 <= i < |fs| :: fs[i].node == ns[i]
    ensures Nodes(WithChildren(rest, fs, cap)) == WithChildren(Nodes(rest), ns, cap)
  {
    var i := Excess(|rest|, |fs|, cap);
    if i == 0 {
      NodesReversed(rest, fs, ns);
    } else {
      CutWith(rest, fs, cap);
      CutWith(Nodes(rest), ns, cap);
      NodesReversed(rest, fs[i..], ns[i..]);
    }
  }

  lemma {:induction false} NodesReversed(rest: seq<Frame>, fs: seq<Frame>, ns: seq<Node>)
    requires |fs| == |ns| && forall i | 0 <= i < |fs| :: fs[i].node == ns[i]
    ensures Nodes(rest + Reversed(fs)) == Nodes(rest) + Reversed(ns)
  {
  }

  /** The frames a capped walk visits from a given stack, in order. */
  ghost function CappedFrames(k: Kinds, stack: seq<Frame>): seq<Frame>
    requires |stack| <= CAP
    decreases Weight(Nodes(stack))
  {
    if stack == [] then []
    else
      var f, rest := stack[|stack| - 1], stack[..|stack| - 1];
      FramesFall(k, rest, f);
      assert rest + [f] == stack;
      [f] + CappedFrames(k, WithChildren(rest, Children(k, f), CAP))
  }

  lemma {:induction false} FramesFall(k: Kinds, rest: seq<Frame>, f: Frame)
    requires |rest| < CAP
    ensures Weight(Nodes(WithChildren(rest, Children(k, f), CAP))) < Weight(Nodes(rest + [f]))
  {
    NodesSnoc(rest, f);
    NodesOfPushed(k, rest, f);
    WeightFalls(Nodes(rest), f.node, CAP);
  }

  lemma {:induction false} FramesStep(k: Kinds, rest: seq<Frame>, f: Frame)
    requires |rest| < CAP
    ensures CappedFrames(k, rest + [f]) == [f] + CappedFrames(k, WithChildren(rest, Children(k, f), CAP))
  {
    assert (rest + [f])[..|rest + [f]| - 1] == rest;
  }

  /** The walk with frames visits the same nodes as the walk without. */
  lemma {:induction false} FramesAreVisits(k: Kinds, stack: seq<Frame>)
    requires |stack| <= CAP
    ensures Nodes(CappedFrames(k, stack)) == CappedVisits(Nodes(stack), CAP)
    decreases Weight(Nodes(stack))
  {
    if stack == [] {
      assert Nodes(stack) == [];
    } else {
      var f, rest := stack[|stack| - 1], stack[..|stack| - 1];
      assert rest + [f] == stack;
      FramesFall(k, rest, f);
      FramesAreVisits(k, WithChildren(rest, Children(k, f), CAP));
      FramesVisitsStep(k, rest, f);
    }
  }

  lemma {:induction false} FramesVisitsStep(k: Kinds, rest: seq<Frame>, f: Frame)
    requires |rest| < CAP
    requires var pushed := WithChildren(rest, Children(k, f), CAP);
             Nodes(CappedFrames(k, pushed)) == CappedVisits(Nodes(pushed), CAP)
    ensures Nodes(CappedFrames(k, rest + [f])) == CappedVisits(Nodes(rest + [f]), CAP)
  {
    FramesStep(k, rest, f);
    NodesSnoc(rest, f);
    NodesOfPushed(k, rest, f);
    VisitsStep(Nodes(rest), f.node, CAP);
    NodesCons(f, CappedFrames(k, WithChildren(rest, Children(k, f), CAP)));
  }

  lemma {:induction false} NodesCons(f: Frame, fs: seq<Frame>)
    ensures Nodes([f] + fs) == [f.node] + Nodes(fs)
  {
  }

  /** What a sequence of visits contributes. */
  ghost function Sum(k: Kinds, fs: seq<Frame>): Metrics {
    if fs == [] then Nothing(k) else Plus(Local(k, fs[0]), Sum(k, fs[1..]))
  }

  lemma {:induction false} SumCountsBranches(k: Kinds, fs: seq<Frame>)
    ensures Sum(k, fs).cyclomatic == CountBranches(k, Nodes(fs))
  {
    if fs != [] {
      assert Nodes(fs)[1..] == Nodes(fs[1..]);
      SumCountsBranches(k, fs[1..]);
    }
  }

  lemma {:induction false} SumFirst(k: Kinds, rest: seq<Frame>, f: Frame)
    requires |rest| < CAP
    ensures Sum(k, CappedFrames(k, rest + [f])) ==
            Plus(Local(k, f), Sum(k, CappedFrames(k, WithChildren(rest, Children(k, f), CAP))))
  {
    var later := CappedFrames(k, WithChildren(rest, Children(k, f), CAP));
    FramesStep(k, rest, f);
    assert ([f] + later)[1..] == later;
  }

  lemma {:induction false} SumStep(k: Kinds, acc: Metrics, rest: seq<Frame>, f: Frame)
    requires |rest| < CAP
    ensures Plus(acc, Sum(k, CappedFrames(k, rest + [f]))) ==
            Plus(Plus(acc, Local(k, f)), Sum(k, CappedFrames(k, WithChildren(rest, Children(k, f), CAP))))
  {
    SumFirst(k, rest, f);
    PlusAssoc(acc, Local(k, f), Sum(k, CappedFrames(k, WithChildren(rest, Children(k, f), CAP))));
  }

  // ----- counted and dropped -----

  /** The metrics of the subtrees below a stack. */
  ghost function PendingMetrics(k: Kinds, stack: seq<Frame>): Metrics {
    if stack == [] then Nothing(k) else Plus(Full(k, stack[|stack| - 1]), PendingMetrics(k, stack[..|stack| - 1]))
  }

  lemma {:induction false} PendingSnoc(k: Kinds, rest: seq<Frame>, f: Frame)
    ensures PendingMetrics(k, rest + [f]) == Plus(Full(k, f), PendingMetrics(k, rest))
  {
    assert (rest + [f])[..|rest + [f]| - 1] == rest;
  }

  lemma {:induction false} PendingPushed(k: Kinds, rest: seq<Frame>, f: Frame, i: nat)
    requires i <= |f.node.children|
    ensures PendingMetrics(k, rest + Reversed(Children(k, f)[i..])) == Plus(FullFrom(k, f, i), PendingMetrics(k, rest))
    decreases |f.node.children| - i
  {
    var cs := Children(k, f)[i..];
    if i == |f.node.children| {
      assert rest + Reversed(cs) == rest;
    } else {
      ChildrenAt(k, f, i);
      assert cs[1..] == Children(k, f)[i + 1..] && cs[0] == Child(k, f, i);
      assert rest + Reversed(cs) == rest + Reversed(cs[1..]) + [cs[0]];
      PendingSnoc(k, rest + Reversed(cs[1..]), cs[0]);
      PendingPushed(k, rest, f, i + 1);
      PlusAssoc(Full(k, cs[0]), FullFrom(k, f, i + 1), PendingMetrics(k, rest));
    }
  }

  lemma {:induction false} PendingWith(k: Kinds, rest: seq<Frame>, f: Frame)
    requires |rest| <= CAP
    ensures PendingMetrics(k, WithChildren(rest, Children(k, f), CAP)) ==
            Plus(FullFrom(k, f, Excess(|rest|, |f.node.children|, CAP)), PendingMetrics(k, rest))
  {
    if |rest| + |f.node.children| <= CAP {
      PendingAll(k, rest, f);
    } else {
      PendingPushed(k, rest, f, |rest| + |f.node.children| - CAP);
    }
  }

  lemma {:induction false} PendingAll(k: Kinds, rest: seq<Frame>, f: Frame)
    ensures PendingMetrics(k, rest + Reversed(Children(k, f))) == Plus(FullFrom(k, f, 0), PendingMetrics(k, rest))
  {
    assert Children(k, f)[0..] == Children(k, f);
    PendingPushed(k, rest, f, 0);
  }

  /** The metrics of the children a capped walk drops. */
  ghost function Dropped(k: Kinds, stack: seq<Frame>): Metrics
    requires |stack| <= CAP
    decreases Weight(Nodes(stack))
  {
    if stack == [] then Nothing(k)
    else
      var f, rest := stack[|stack| - 1], stack[..|stack| - 1];
      FramesFall(k, rest, f);
      assert rest + [f] == stack;
      Plus(FullUpTo(k, f, Excess(|rest|, |f.node.children|, CAP)), Dropped(k, WithChildren(rest, Children(k, f), CAP)))
  }

  lemma {:induction false} DroppedStep(k: Kinds, rest: seq<Frame>, f: Frame)
    requires |rest| < CAP
    ensures Dropped(k, rest + [f]) ==
            Plus(FullUpTo(k, f, Excess(|rest|, |f.node.children|, CAP)), Dropped(k, WithChildren(rest, Children(k, f), CAP)))
  {
    assert (rest + [f])[..|rest + [f]| - 1] == rest;
  }

  lemma {:induction false} PlusArrange(local: Metrics, dropped: Metrics, kept: Metrics, pending: Metrics)
    ensures Plus(Plus(local, Plus(dropped, kept)), pending) == Plus(Plus(local, dropped), Plus(kept, pending))
  {
  }

  /** One visit accounts for the node, for the children it drops, and leaves the rest pending. */
  lemma {:induction false} VisitMetrics(k: Kinds, rest: seq<Frame>, f: Frame)
    requires |rest| < CAP
    ensures PendingMetrics(k, rest + [f]) ==
            Plus(Plus(Local(k, f), FullUpTo(k, f, Excess(|rest|, |f.node.children|, CAP))),
                 PendingMetrics(k, WithChildren(rest, Children(k, f), CAP)))
  {
    var i := Excess(|rest|, |f.node.children|, CAP);
    PendingWith(k, rest, f);
    FullSplit(k, f, i);
    PendingSnoc(k, rest, f);
    PlusArrange(Local(k, f), FullUpTo(k, f, i), FullFrom(k, f, i), PendingMetrics(k, rest));
  }

  lemma {:induction false} PlusExchange(local: Metrics, dropped: Metrics, counted: Metrics, lost: Metrics)
    ensures Plus(Plus(local, dropped), Plus(counted, lost)) == Plus(Plus(local, counted), Plus(dropped, lost))
  {
  }

  /** What a walk from a stack accounts for: what it counts and what it drops. */
  ghost function Accounted(k: Kinds, stack: seq<Frame>): Metrics
    requires |stack| <= CAP
  {
    Plus(Sum(k, CappedFrames(k, stack)), Dropped(k, stack))
  }

  lemma {:induction false} AccountedStep(k: Kinds, rest: seq<Frame>, f: Frame)
    requires |rest| < CAP
    ensures Accounted(k, rest + [f]) ==
            Plus(Plus(Local(k, f), FullUpTo(k, f, Excess(|rest|, |f.node.children|, CAP))),
                 Accounted(k, WithChildren(rest, Children(k, f), CAP)))
  {
    var pushed := WithChildren(rest, Children(k, f), CAP);
    SumFirst(k, rest, f);
    DroppedStep(k, rest, f);
    PlusExchange(Local(k, f), FullUpTo(k, f, Excess(|rest|, |f.node.children|, CAP)),
                 Sum(k, CappedFrames(k, pushed)), Dropped(k, pushed));
  }

  /** Conservation: what the subtrees below a stack amount to is what is counted and what is dropped. */
  lemma {:induction false} CountedAndDropped(k: Kinds, stack: seq<Frame>)
    requires |stack| <= CAP
    ensures PendingMetrics(k, stack) == Accounted(k, stack)
    decreases Weight(Nodes(stack))
  {
    if stack == [] {
      PlusNothing(k, Nothing(k));
    } else {
      var f, rest := stack[|stack| - 1], stack[..|stack| - 1];
      assert rest + [f] == stack;
      FramesFall(k, rest, f);
      CountedAndDropped(k, WithChildren(rest, Children(k, f), CAP));
      VisitMetrics(k, rest, f);
      AccountedStep(k, rest, f);
    }
  }

  /** Where everything fits, nothing is dropped. */
  lemma {:induction false} FittingDropsNothing(k: Kinds, stack: seq<Frame>)
    requires |stack| <= CAP && StackFits(Nodes(stack), CAP)
    ensures Dropped(k, stack) == Nothing(k)
    decreases Weight(Nodes(stack))
  {
    if stack != [] {
      var f, rest := stack[|stack| - 1], stack[..|stack| - 1];
      assert rest + [f] == stack;
      FramesFall(k, rest, f);
      FittingStep(k, rest, f);
      FittingDropsNothing(k, WithChildren(rest, Children(k, f), CAP));
      DroppedStep(k, rest, f);
    }
  }

  lemma {:induction false} FittingStep(k: Kinds, rest: seq<Frame>, f: Frame)
    requires |rest| < CAP && StackFits(Nodes(rest + [f]), CAP)
    ensures Excess(|rest|, |f.node.children|, CAP) == 0
    ensures StackFits(Nodes(WithChildren(rest, Children(k, f), CAP)), CAP)
  {
    NodesSnoc(rest, f);
    NodesOfPushed(k, rest, f);
    StackFitsTop(Nodes(rest), f.node, CAP);
  }

  // ----- what the counts say about each other -----

  /** Every pending nesting has been counted: depths never run ahead of counts. */
  ghost predicate Balanced(m: Metrics, stack: seq<Frame>) {
    && m.cyclomatic <= m.cognitive
    && 2 * m.cognitive <= m.cyclomatic * (m.cyclomatic + 1)
    && m.loopDepth <= m.loopCount
    && forall i | 0 <= i < |stack| :: stack[i].bdepth <= m.cyclomatic && stack[i].ldepth <= m.loopCount
  }

  lemma {:induction false} CognitiveBound(c: nat, cognitive: nat, b: nat)
    requires 2 * cognitive <= c * (c + 1) && b <= c
    ensures 2 * (cognitive + 1 + b) <= (c + 1) * (c + 2)
  {
    assert (c + 1) * (c + 2) == c * (c + 1) + 2 * (c + 1);
  }

  lemma {:induction false} BalancedVisit(k: Kinds, m: Metrics, rest: seq<Frame>, f: Frame)
    requires |rest| <= CAP && Balanced(m, rest + [f])
    ensures Balanced(Plus(m, Local(k, f)), WithChildren(rest, Children(k, f), CAP))
  {
    var m', stack := Plus(m, Local(k, f)), WithChildren(rest, Children(k, f), CAP);
    assert (rest + [f])[|rest|] == f;
    CognitiveBound(m.cyclomatic, m.cognitive, f.bdepth);
    forall i | 0 <= i < |stack| ensures stack[i].bdepth <= m'.cyclomatic && stack[i].ldepth <= m'.loopCount {
      if i < |rest| {
        assert stack[i] == (rest + [f])[i];
      } else {
        var j :| 0 <= j < |f.node.children| && stack[i] == Children(k, f)[j];
        ChildrenAt(k, f, j);
      }
    }
  }

  ghost function First(root: Node): seq<Frame> {
    [Frame(root, 0, 0, 0)]
  }

  /** What the capped walk of a tree counts. */
  ghost function Counts(k: Kinds, root: Node): Metrics {
    Sum(k, CappedFrames(k, First(root)))
  }

  /** The state of the walk: what is counted and what is to come, and the counts are balanced. */
  ghost predicate Walking(k: Kinds, root: Node, acc: Metrics, stack: seq<Frame>) {
    && |stack| <= CAP
    && Plus(acc, Sum(k, CappedFrames(k, stack))) == Sum(k, CappedFrames(k, First(root)))
    && Balanced(acc, stack)
  }

  lemma {:induction false} WalkingStep(k: Kinds, root: Node, acc: Metrics, rest: seq<Frame>, f: Frame)
    requires Walking(k, root, acc, rest + [f])
    ensures Walking(k, root, Plus(acc, Local(k, f)), WithChildren(rest, Children(k, f), CAP))
    ensures Weight(Nodes(WithChildren(rest, Children(k, f), CAP))) < Weight(Nodes(rest + [f]))
  {
    FramesFall(k, rest, f);
    SumStep(k, acc, rest, f);
    BalancedVisit(k, acc, rest, f);
  }

  /** The updates made for one frame, and the nesting its children get. */
  method Tally(k: Kinds, f: Frame, m: Metrics) returns (m': Metrics, children: seq<Frame>)
    ensures m' == Plus(m, Local(k, f))
    ensures children == Children(k, f)
  {
    m' := m;
    var childB, childL, childA := f.bdepth, f.ldepth, 0;
    if IsAccess(k, f.node) {
      childA := f.adepth + 1;
      if childA > m'.maxAccessDepth {
        m' := m'.(maxAccessDepth := childA);
      }
    }
    if IsBranch(k, f.node) {
      m' := m'.(cyclomatic := m'.cyclomatic + 1, cognitive := m'.cognitive + 1 + f.bdepth);
      childB := f.bdepth + 1;
    }
    if IsLoop(k, f.node) {
      var d := f.ldepth + 1;
      m' := m'.(loopCount := m'.loopCount + 1);
      if d > m'.loopDepth {
        m' := m'.(loopDepth := d);
      }
      childL := d;
    }
    children := seq(|f.node.children|,
                    i requires 0 <= i < |f.node.children| => Frame(f.node.children[i], childB, childL, childA));
    forall i | 0 <= i < |children| ensures children[i] == Children(k, f)[i] {
      ChildrenAt(k, f, i);
    }
  }

  lemma {:induction false} WalkingStart(k: Kinds, root: Node)
    ensures Walking(k, root, Nothing(k), First(root))
  {
    PlusNothing(k, Sum(k, CappedFrames(k, First(root))));
  }

  lemma {:induction false} WalkingEnd(k: Kinds, root: Node, m: Metrics)
    requires Walking(k, root, m, [])
    ensures m == Sum(k, CappedFrames(k, First(root))) && Balanced(m, [])
  {
    PlusNothing(k, m);
  }

  lemma {:induction false} PlusNothing(k: Kinds, m: Metrics)
    ensures Plus(Nothing(k), m) == m && Plus(m, Nothing(k)) == m
  {
  }

  /** What the counted metrics say about the tree. */
  lemma {:induction false} CountedMeaning(k: Kinds, root: Node, m: Metrics)
    requires m == Sum(k, CappedFrames(k, First(root)))
    ensures Full(k, Frame(root, 0, 0, 0)) == Plus(m, Dropped(k, First(root)))
    ensures FitsAt(root, 0, CAP) ==> m == Full(k, Frame(root, 0, 0, 0))
    ensures m.cyclomatic == CountBranches(k, CappedVisits([root], CAP))
  {
    FirstMeaning(k, root);
    CountedAndDropped(k, First(root));
    FramesAreVisits(k, First(root));
    SumCountsBranches(k, CappedFrames(k, First(root)));
    if FitsAt(root, 0, CAP) {
      FittingDropsNothing(k, First(root));
    }
  }

  lemma {:induction false} FirstMeaning(k: Kinds, root: Node)
    ensures PendingMetrics(k, First(root)) == Full(k, Frame(root, 0, 0, 0)) && Nodes(First(root)) == [root]
  {
    var first := Frame(root, 0, 0, 0);
    assert First(root)[..0] == [];
    assert PendingMetrics(k, First(root)) == Plus(Full(k, first), PendingMetrics(k, []));
  }

  /**
   `cbm_compute_complexity` over a present table of branching types: the sum over the frames the
   capped walk visits. With what is dropped it makes up the recursive metrics of the whole tree,
   and nothing is dropped if the tree fits.
   */
  method ComputeComplexity(k: Kinds, root: Node) returns (m: Metrics)
    ensures m == Counts(k, root)
    ensures Full(k, Frame(root, 0, 0, 0)) == Plus(m, Dropped(k, First(root)))
    ensures AtMost(m, Full(k, Frame(root, 0, 0, 0)))
    ensures FitsAt(root, 0, CAP) || Size(root) <= 4096 ==> m == Full(k, Frame(root, 0, 0, 0))
    ensures m.cyclomatic == CountBranches(k, CappedVisits([root], CAP))
    ensures m.cyclomatic <= m.cognitive && 2 * m.cognitive <= m.cyclomatic * (m.cyclomatic + 1)
    ensures m.loopDepth <= m.loopCount
  {
    m := WalkFrames(k, root);
    WalkingEnd(k, root, m);
    CountedMeaning(k, root, m);
    UnderApproximates(k, root, m);
    if Size(root) <= CAP {
      SmallTreesAreCountedWhole(root);
    }
  }

  /** The loop of the walk. */
  method WalkFrames(k: Kinds, root: Node) returns (m: Metrics)
    ensures Walking(k, root, m, [])
  {
    var stack := new CappedStack<Frame>(Frame(root, 0, 0, 0), CAP);
    m := Nothing(k);
    WalkingStart(k, root);
    while stack.top > 0
      invariant stack.Valid() && stack.cap == CAP && fresh(stack) && fresh(stack.items)
      invariant Walking(k, root, m, stack.Contents())
      decreases Weight(Nodes(stack.Contents()))
    {
      var f := stack.Pop();
      WalkingStep(k, root, m, stack.Contents(), f);
      var children;
      m, children := Tally(k, f, m);
      stack.PushChildren(children);
    }
    assert stack.Contents() == [];
  }

  /** Each metric is at most the recursive one; they are equal exactly when what is dropped adds nothing. */
  lemma {:induction false} UnderApproximates(k: Kinds, root: Node, m: Metrics)
    requires Full(k, Frame(root, 0, 0, 0)) == Plus(m, Dropped(k, First(root)))
    ensures AtMost(m, Full(k, Frame(root, 0, 0, 0)))
    ensures var d := Dropped(k, First(root));
            m == Full(k, Frame(root, 0, 0, 0)) <==>
            d.cyclomatic == d.cognitive == d.loopCount == 0 && d.loopDepth <= m.loopDepth && d.maxAccessDepth <= m.maxAccessDepth
  {
    PlusGrows(m, Dropped(k, First(root)));
  }

  lemma {:induction false} PlusGrows(m: Metrics, d: Metrics)
    ensures AtMost(m, Plus(m, d))
    ensures m == Plus(m, d) <==>
            d.cyclomatic == d.cognitive == d.loopCount == 0 && d.loopDepth <= m.loopDepth && d.maxAccessDepth <= m.maxAccessDepth
  {
  }

  /** Every tree of at most 4096 nodes fits. */
  lemma {:induction false} SmallTreesAreCountedWhole(root: Node)
    requires Size(root) <= 4096
    ensures FitsAt(root, 0, CAP) && CappedVisits([root], CAP) == PreOrder(root)
  {
    SmallFits(root, 0, CAP);
    WholeIffFits(root, CAP);
  }

  // ----- a truncated tree -----

  function Leaf(kind: string): Node {
    Node(kind, true, 0, 0, [])
  }

  /** A node with one child of kind `first` and n leaves after it. */
  function Wide(first: string, kind: string, n: nat): Node {
    Node(kind, true, 0, 0, [Leaf(first)] + seq(n, _ => Leaf(kind)))
  }

  lemma {:induction false} LeavesCountNothing(k: Kinds, stack: seq<Node>, kind: string)
    requires |stack| <= CAP && kind !in k.branching && forall i | 0 <= i < |stack| :: stack[i] == Leaf(kind)
    ensures CountBranches(k, CappedVisits(stack, CAP)) == 0
  {
    if stack != [] {
      var rest := stack[..|stack| - 1];
      assert rest + [Leaf(kind)] == stack;
      VisitsStep(rest, Leaf(kind), CAP);
      assert WithChildren(rest, Leaf(kind).children, CAP) == rest;
      LeavesCountNothing(k, rest, kind);
    }
  }

  /** Beside 4096 leaves or more a branch is dropped: cyclomatic is 0 where the tree has a branch. */
  lemma {:induction false} WideIsTruncated(k: Kinds, branch: string, other: string, n: nat)
    requires n >= 4096 && branch in k.branching && other !in k.branching
    ensures var root := Wide(branch, other, n);
            && !FitsAt(root, 0, CAP)
            && Counts(k, root).cyclomatic == 0
            && Full(k, Frame(root, 0, 0, 0)).cyclomatic >= 1
  {
    var root := Wide(branch, other, n);
    var f := Frame(root, 0, 0, 0);
    WideCountsNothing(k, branch, other, n);
    CountedMeaning(k, root, Sum(k, CappedFrames(k, First(root))));
    assert IsBranch(k, Child(k, f, 0).node);
    assert FullFrom(k, f, 0) == Plus(Full(k, Child(k, f, 0)), FullFrom(k, f, 1));
  }

  lemma {:induction false} WideCountsNothing(k: Kinds, branch: string, other: string, n: nat)
    requires n >= CAP && other !in k.branching
    ensures CountBranches(k, CappedVisits([Wide(branch, other, n)], CAP)) == 0
  {
    var root := Wide(branch, other, n);
    var pushed := WithChildren([], root.children, CAP);
    assert forall i | 0 <= i < |pushed| :: pushed[i] == Leaf(other);
    LeavesCountNothing(k, pushed, other);
    assert [root][..0] == [];
    assert CappedVisits([root], CAP) == [root] + CappedVisits(pushed, CAP);
  }

  /** Both entry points give nothing without a table of branching types. */
  method Measure(branching: Option<seq<string>>, loops: seq<string>, accesses: seq<string>, root: Node)
    returns (m: Metrics, branches: nat)
    ensures branching.None? ==> m == Metrics(0, 0, 0, 0, 0)
    ensures branching.Some? ==> m == Counts(Kinds(branching.value, loops, accesses), root)
    ensures m.cyclomatic == branches
  {
    match branching
    case None =>
      m, branches := Metrics(0, 0, 0, 0, 0), 0;
    case Some(types) =>
      var k := Kinds(types, loops, accesses);
      m := ComputeComplexity(k, root);
      branches := CountBranching(k, root);
  }
}

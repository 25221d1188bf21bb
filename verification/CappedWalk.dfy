/**
 Walks over an explicit stack of fixed capacity that drops the children that do not fit: what they
 visit, and exactly when that is the whole tree in pre-order.
 */
module CappedWalk {
  import opened Tree
  import opened NodeStack

  // ----- the capped stack -----

  /** How many of n children, the first ones, do not fit on a stack of height h. */
  function Excess(h: nat, n: nat, cap: nat): nat {
    if h + n <= cap then 0 else h + n - cap
  }

  /** The stack after pushing the children, last child first, as far as they fit. */
  ghost function WithChildren<X>(rest: seq<X>, children: seq<X>, cap: nat): (s: seq<X>)
    requires |rest| <= cap
    ensures |s| <= cap
  {
    if |rest| + |children| <= cap then rest + Reversed(children)
    else rest + Reversed(children[|rest| + |children| - cap..])
  }

  /** Above what was there stand the last children, the last of them lowest, up to the capacity. */
  lemma {:induction false} WithChildrenAt<X>(rest: seq<X>, children: seq<X>, cap: nat)
    requires |rest| <= cap
    ensures var s := WithChildren(rest, children, cap);
            && |s| == (if |rest| + |children| <= cap then |rest| + |children| else cap)
            && rest <= s
            && forall j | |rest| <= j < |s| :: s[j] == children[|children| - 1 - (j - |rest|)]
  {
  }

  class CappedStack<X> {
    const items: array<X>
    const cap: nat
    var top: nat

    ghost predicate Valid()
      reads this
    {
      items.Length == cap && top <= cap
    }

    ghost function Contents(): seq<X>
      requires Valid()
      reads this, items
    {
      items[..top]
    }

    constructor (root: X, cap: nat)
      requires cap > 0
      ensures Valid() && Contents() == [root] && fresh(items) && this.cap == cap
    {
      this.cap := cap;
      items := new X[cap](_ => root);
      top := 1;
    }

    method Pop() returns (x: X)
      requires Valid() && top > 0
      modifies this`top
      ensures Valid() && old(Contents()) == Contents() + [x]
    {
      top := top - 1;
      x := items[top];
    }

    /** `for (i = n - 1; i >= 0 && top < CAP; i--) stack[top++] = child(i)` */
    method PushChildren(children: seq<X>)
      requires Valid()
      modifies this`top, items
      ensures Valid() && Contents() == WithChildren(old(Contents()), children, cap)
    {
      ghost var rest := Contents();
      var i := |children|;
      while i > 0 && top < cap
        invariant 0 <= i <= |children| && Valid()
        invariant |rest| + |children| - i == top
        invariant Contents() == rest + Reversed(children[i..])
        decreases i
      {
        i := i - 1;
        assert children[i..] == [children[i]] + children[i + 1..];
        assert Reversed(children[i..]) == Reversed(children[i + 1..]) + [children[i]];
        items[top] := children[i];
        top := top + 1;
      }
      assert i == Excess(|rest|, |children|, cap);
      assert children[0..] == children;
    }
  }

  // ----- the nodes below a stack -----

  /** Nodes held below a stack of subtrees. */
  ghost function Weight(stack: seq<Node>): nat {
    if stack == [] then 0 else Size(stack[|stack| - 1]) + Weight(stack[..|stack| - 1])
  }

  lemma {:induction false} WeightPushed(rest: seq<Node>, n: Node, i: nat)
    requires i <= |n.children|
    ensures Weight(rest + Reversed(n.children[i..])) == SizeFrom(n, i) + Weight(rest)
    decreases |n.children| - i
  {
    var cs := n.children[i..];
    var stack := rest + Reversed(cs);
    if i == |n.children| {
      assert stack == rest;
    } else {
      assert cs[1..] == n.children[i + 1..];
      assert stack[..|stack| - 1] == rest + Reversed(cs[1..]);
      WeightPushed(rest, n, i + 1);
    }
  }

  lemma {:induction false} SizeFromShrinks(n: Node, i: nat)
    requires i <= |n.children|
    ensures SizeFrom(n, i) + i <= SizeFrom(n, 0)
  {
    if i > 0 {
      SizeFromShrinks(n, i - 1);
    }
  }

  lemma {:induction false} WeightSnoc(rest: seq<Node>, n: Node)
    ensures Weight(rest + [n]) == Size(n) + Weight(rest)
  {
    assert (rest + [n])[..|rest + [n]| - 1] == rest;
  }

  /** Replacing a node by those of its children that fit makes the stack lighter, by one if all fit. */
  lemma {:induction false} WeightFalls(rest: seq<Node>, n: Node, cap: nat)
    requires |rest| <= cap
    ensures Weight(WithChildren(rest, n.children, cap)) < Weight(rest + [n])
    ensures Weight(WithChildren(rest, n.children, cap)) == Weight(rest + [n]) - 1 <==> |rest| + |n.children| <= cap
  {
    WeightSnoc(rest, n);
    if |rest| + |n.children| <= cap {
      WeightAll(rest, n);
    } else {
      WeightCut(rest, n, cap);
      SizeFromShrinks(n, |rest| + |n.children| - cap);
    }
  }

  lemma {:induction false} WeightCut(rest: seq<Node>, n: Node, cap: nat)
    requires |rest| <= cap < |rest| + |n.children|
    ensures Weight(WithChildren(rest, n.children, cap)) == SizeFrom(n, |rest| + |n.children| - cap) + Weight(rest)
  {
    CutWith(rest, n.children, cap);
    WeightPushed(rest, n, |rest| + |n.children| - cap);
  }

  lemma {:induction false} CutWith<X>(rest: seq<X>, children: seq<X>, cap: nat)
    requires |rest| <= cap < |rest| + |children|
    ensures WithChildren(rest, children, cap) == rest + Reversed(children[|rest| + |children| - cap..])
  {
  }

  lemma {:induction false} WeightAll(rest: seq<Node>, n: Node)
    ensures Weight(rest + Reversed(n.children)) == SizeFrom(n, 0) + Weight(rest)
  {
    assert n.children[0..] == n.children;
    WeightPushed(rest, n, 0);
  }

  /** A stack is no higher than the nodes it stands for. */
  lemma {:induction false} HeightBelowWeight(stack: seq<Node>)
    ensures |stack| <= Weight(stack)
  {
    if stack != [] {
      HeightBelowWeight(stack[..|stack| - 1]);
    }
  }

  // ----- what is visited -----

  /** The nodes a capped walk visits from a given stack, in order. */
  ghost function CappedVisits(stack: seq<Node>, cap: nat): seq<Node>
    requires |stack| <= cap
    decreases Weight(stack)
  {
    if stack == [] then []
    else
      var n, rest := stack[|stack| - 1], stack[..|stack| - 1];
      WeightFalls(rest, n, cap);
      assert rest + [n] == stack;
      [n] + CappedVisits(WithChildren(rest, n.children, cap), cap)
  }

  lemma {:induction false} VisitsStep(rest: seq<Node>, n: Node, cap: nat)
    requires |rest| < cap
    ensures CappedVisits(rest + [n], cap) == [n] + CappedVisits(WithChildren(rest, n.children, cap), cap)
  {
    assert (rest + [n])[..|rest + [n]| - 1] == rest;
  }

  /** No subtree of n overflows the stack when n is visited with h nodes pending below it. */
  ghost predicate FitsAt(n: Node, h: nat, cap: nat)
    decreases n
  {
    && h + |n.children| <= cap
    && forall i | 0 <= i < |n.children| :: FitsAt(n.children[i], h + |n.children| - 1 - i, cap)
  }

  /** Each node of a stack is visited when exactly the nodes below it are pending. */
  ghost predicate StackFits(stack: seq<Node>, cap: nat) {
    forall k | 0 <= k < |stack| :: FitsAt(stack[k], k, cap)
  }

  /** Visiting the top node passes the question on to its children. */
  lemma {:induction false} StackFitsStep(rest: seq<Node>, n: Node, cap: nat)
    requires |rest| + |n.children| <= cap
    ensures StackFits(rest + [n], cap) <==> StackFits(WithChildren(rest, n.children, cap), cap)
  {
    var before, after, h, c := rest + [n], WithChildren(rest, n.children, cap), |rest|, |n.children|;
    if StackFits(before, cap) {
      assert FitsAt(before[h], h, cap);
      forall k | 0 <= k < |after| ensures FitsAt(after[k], k, cap) {
        if k < h {
          assert FitsAt(before[k], k, cap);
        } else {
          assert after[k] == n.children[c - 1 - (k - h)];
        }
      }
    }
    if StackFits(after, cap) {
      forall i | 0 <= i < c ensures FitsAt(n.children[i], h + c - 1 - i, cap) {
        assert FitsAt(after[h + c - 1 - i], h + c - 1 - i, cap);
      }
      forall k | 0 <= k < |before| ensures FitsAt(before[k], k, cap) {
        if k < h {
          assert FitsAt(after[k], k, cap);
        }
      }
    }
  }

  lemma {:induction false} StackFitsTop(rest: seq<Node>, n: Node, cap: nat)
    requires |rest| < cap && StackFits(rest + [n], cap)
    ensures |rest| + |n.children| <= cap && StackFits(WithChildren(rest, n.children, cap), cap)
  {
    assert FitsAt((rest + [n])[|rest|], |rest|, cap);
    StackFitsStep(rest, n, cap);
  }

  /** A capped walk visits no more nodes than there are, and all of them exactly when everything fits. */
  lemma {:induction false} VisitsCounted(stack: seq<Node>, cap: nat)
    requires |stack| <= cap
    ensures |CappedVisits(stack, cap)| <= Weight(stack)
    ensures |CappedVisits(stack, cap)| == Weight(stack) <==> StackFits(stack, cap)
    decreases Weight(stack)
  {
    if stack != [] {
      var n, rest := stack[|stack| - 1], stack[..|stack| - 1];
      assert rest + [n] == stack;
      WeightFalls(rest, n, cap);
      VisitsCounted(WithChildren(rest, n.children, cap), cap);
      if |rest| + |n.children| <= cap {
        StackFitsStep(rest, n, cap);
      } else {
        assert !FitsAt(stack[|rest|], |rest|, cap);
      }
    }
  }

  /** A walk in which everything fits is the plain pre-order walk. */
  lemma {:induction false} FittingIsPreOrder(stack: seq<Node>, cap: nat)
    requires |stack| <= cap && StackFits(stack, cap)
    ensures CappedVisits(stack, cap) == Pending(stack)
    decreases Weight(stack)
  {
    if stack != [] {
      var n, rest := stack[|stack| - 1], stack[..|stack| - 1];
      assert rest + [n] == stack;
      assert FitsAt(stack[|rest|], |rest|, cap);
      WeightFalls(rest, n, cap);
      StackFitsStep(rest, n, cap);
      FittingIsPreOrder(WithChildren(rest, n.children, cap), cap);
      VisitsStep(rest, n, cap);
      PendingNode(rest, n);
      AllChildren(rest, n);
    }
  }

  lemma {:induction false} PreOrderSize(n: Node)
    ensures |PreOrder(n)| == Size(n)
    decreases n, |n.children| + 1
  {
    PreOrderFromSize(n, 0);
  }

  lemma {:induction false} PreOrderFromSize(n: Node, i: nat)
    requires i <= |n.children|
    ensures |PreOrderFrom(n, i)| == SizeFrom(n, i)
    decreases n, |n.children| - i
  {
    if i < |n.children| {
      PreOrderSize(n.children[i]);
      PreOrderFromSize(n, i + 1);
    }
  }

  /** The capped walk of a tree is its pre-order if and only if the tree fits. */
  lemma {:induction false} WholeIffFits(root: Node, cap: nat)
    requires cap > 0
    ensures CappedVisits([root], cap) == PreOrder(root) <==> FitsAt(root, 0, cap)
  {
    var stack := [root];
    assert stack[..0] == [];
    assert Weight(stack) == Size(root) + Weight([]);
    PreOrderSize(root);
    VisitsCounted(stack, cap);
    assert StackFits(stack, cap) <==> FitsAt(stack[0], 0, cap);
    if StackFits(stack, cap) {
      FittingIsPreOrder(stack, cap);
      assert Pending(stack) == PreOrder(root) + Pending([]);
    }
  }

  /** A tree with no more nodes than the stack has entries always fits. */
  lemma {:induction false} SmallFits(n: Node, h: nat, cap: nat)
    requires h + Size(n) <= cap + 1
    ensures FitsAt(n, h, cap)
    decreases n
  {
    SizeFromShrinks(n, |n.children|);
    forall i | 0 <= i < |n.children| ensures FitsAt(n.children[i], h + |n.children| - 1 - i, cap) {
      SizeFromSplit(n, i);
      SmallFits(n.children[i], h + |n.children| - 1 - i, cap);
    }
  }

  lemma {:induction false} SizeFromSplit(n: Node, i: nat)
    requires i < |n.children|
    ensures Size(n.children[i]) + |n.children| - 1 <= SizeFrom(n, 0)
  {
    SizeFromShrinks(n, i);
    SizeFromTail(n, i + 1);
  }

  lemma {:induction false} SizeFromTail(n: Node, i: nat)
    requires i <= |n.children|
    ensures |n.children| - i <= SizeFrom(n, i)
    decreases |n.children| - i
  {
    if i < |n.children| {
      SizeFromTail(n, i + 1);
    }
  }

  // ----- the condition by positions -----

  /** The later siblings on the way down to p, p's own included: what is pending when p is visited. */
  ghost function LaterSiblings(n: Node, p: Path): nat
    requires ValidPath(n, p)
    decreases |p|
  {
    if p == [] then 0 else |n.children| - 1 - p[0] + LaterSiblings(n.children[p[0]], p[1..])
  }

  /** At position p the children fit on top of what is pending. */
  ghost predicate FitsHere(n: Node, h: nat, cap: nat, p: Path) {
    ValidPath(n, p) ==> h + LaterSiblings(n, p) + |At(n, p).children| <= cap
  }

  lemma {:induction false} FitsEverywhere(n: Node, h: nat, cap: nat, p: Path)
    requires FitsAt(n, h, cap)
    ensures FitsHere(n, h, cap, p)
    decreases |p|
  {
    if p != [] && ValidPath(n, p) {
      FitsEverywhere(n.children[p[0]], h + |n.children| - 1 - p[0], cap, p[1..]);
    }
  }

  lemma {:induction false} OverflowSomewhere(n: Node, h: nat, cap: nat) returns (p: Path)
    requires !FitsAt(n, h, cap)
    ensures !FitsHere(n, h, cap, p)
    decreases n
  {
    if h + |n.children| > cap {
      p := [];
    } else {
      var i :| 0 <= i < |n.children| && !FitsAt(n.children[i], h + |n.children| - 1 - i, cap);
      var q := OverflowSomewhere(n.children[i], h + |n.children| - 1 - i, cap);
      p := [i] + q;
      assert p[1..] == q;
    }
  }

  /** A tree fits exactly when, at every position, the later siblings above and the children do. */
  lemma {:induction false} FitsByPosition(root: Node, cap: nat)
    ensures FitsAt(root, 0, cap) <==> forall p :: FitsHere(root, 0, cap, p)
  {
    if FitsAt(root, 0, cap) {
      forall p ensures FitsHere(root, 0, cap, p) {
        FitsEverywhere(root, 0, cap, p);
      }
    } else {
      var p := OverflowSomewhere(root, 0, cap);
    }
  }
}

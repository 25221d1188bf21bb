/**
 The growable node stack and the walk built on it: `ts_nstack_push`, `ts_nstack_pop`,
 `ts_nstack_push_children` and the pop/push-children loop of `walk_calls`.
 */
module NodeStack {
  import opened Tree

  const FIRST_CAP: nat := 512

  function Reversed<X>(s: seq<X>): (r: seq<X>)
    ensures |r| == |s| && forall i | 0 <= i < |s| :: r[i] == s[|s| - 1 - i]
  {
    seq(|s|, i requires 0 <= i < |s| => s[|s| - 1 - i])
  }

  /** Swapping from both ends until the ends meet reverses the segment. */
  lemma {:induction false} MirrorDone<X>(was: seq<X>, now: seq<X>, base: nat, lo: int, hi: int)
    requires |now| == |was| && base <= lo && hi <= lo <= hi + 1 && lo + hi == base + |was| - 1
    requires forall i | 0 <= i < base || lo <= i <= hi :: now[i] == was[i]
    requires forall i | base <= i < lo :: now[i] == was[lo + hi - i] && now[lo + hi - i] == was[i]
    ensures now == was[..base] + Reversed(was[base..])
  {
    forall i | base <= i < |now| ensures now[i] == was[lo + hi - i] {
      if hi < i {
        assert now[lo + hi - (lo + hi - i)] == was[lo + hi - i];
      }
    }
    assert now[..base] == was[..base];
    assert now[base..] == Reversed(was[base..]);
    assert now == now[..base] + now[base..];
  }

  function NextCap(cap: nat): nat {
    if cap > 0 then cap * 2 else FIRST_CAP
  }

  /** Which of the nodes pushed in turn are accepted; alloc[i] says whether a growth needed then succeeds. */
  function Accepted(nodes: seq<Node>, alloc: seq<bool>, count: nat, cap: nat): seq<Node>
    requires |alloc| == |nodes| && count <= cap
  {
    if nodes == [] then []
    else if count < cap then [nodes[0]] + Accepted(nodes[1..], alloc[1..], count + 1, cap)
    else if alloc[0] then [nodes[0]] + Accepted(nodes[1..], alloc[1..], count + 1, NextCap(cap))
    else Accepted(nodes[1..], alloc[1..], count, cap)
  }

  /** Those that are not: dropped by a refused growth. */
  function Rejected(nodes: seq<Node>, alloc: seq<bool>, count: nat, cap: nat): seq<Node>
    requires |alloc| == |nodes| && count <= cap
  {
    if nodes == [] then []
    else if count < cap then Rejected(nodes[1..], alloc[1..], count + 1, cap)
    else if alloc[0] then Rejected(nodes[1..], alloc[1..], count + 1, NextCap(cap))
    else [nodes[0]] + Rejected(nodes[1..], alloc[1..], count, cap)
  }

  /** a is b with some elements left out. */
  ghost predicate Sub<X>(a: seq<X>, b: seq<X>)
    decreases |b|
  {
    a == [] || (b != [] && ((a[0] == b[0] && Sub(a[1..], b[1..])) || Sub(a, b[1..])))
  }

  /** With every growth granted or none needed all nodes are accepted; otherwise some may be left out. */
  lemma {:induction false} AcceptedNodes(nodes: seq<Node>, alloc: seq<bool>, count: nat, cap: nat)
    requires |alloc| == |nodes| && count <= cap
    ensures Sub(Accepted(nodes, alloc, count, cap), nodes)
    ensures (forall i | 0 <= i < |alloc| :: alloc[i]) || count + |nodes| <= cap ==> Accepted(nodes, alloc, count, cap) == nodes
    decreases |nodes|
  {
    if nodes != [] {
      var grow := count == cap && alloc[0];
      var count' := if count < cap || alloc[0] then count + 1 else count;
      AcceptedNodes(nodes[1..], alloc[1..], count', if grow then NextCap(cap) else cap);
    }
  }

  lemma {:induction false} AcceptedNext(kept: seq<Node>, nodes: seq<Node>, alloc: seq<bool>, i: nat, count: nat, cap: nat)
    requires |alloc| == |nodes| && i < |nodes| && count <= cap
    ensures kept + Accepted(nodes[i..], alloc[i..], count, cap) ==
            if count < cap then kept + [nodes[i]] + Accepted(nodes[i + 1..], alloc[i + 1..], count + 1, cap)
            else if alloc[i] then kept + [nodes[i]] + Accepted(nodes[i + 1..], alloc[i + 1..], count + 1, NextCap(cap))
            else kept + Accepted(nodes[i + 1..], alloc[i + 1..], count, cap)
  {
    assert nodes[i..][1..] == nodes[i + 1..] && alloc[i..][1..] == alloc[i + 1..];
  }

  lemma {:induction false} SubSelf<X>(a: seq<X>)
    ensures Sub(a, a)
  {
    if a != [] {
      SubSelf(a[1..]);
    }
  }

  lemma {:induction false} SubTrans<X>(a: seq<X>, b: seq<X>, c: seq<X>)
    requires Sub(a, b) && Sub(b, c)
    ensures Sub(a, c)
    decreases |c|
  {
    if a != [] {
      if Sub(b, c[1..]) {
        SubTrans(a, b, c[1..]);
      } else if a[0] == b[0] && Sub(a[1..], b[1..]) {
        SubTrans(a[1..], b[1..], c[1..]);
      } else {
        SubTrans(a, b[1..], c[1..]);
      }
    }
  }

  lemma {:induction false} SubBehind<X>(p: seq<X>, a: seq<X>, b: seq<X>)
    requires Sub(a, b)
    ensures Sub(p + a, p + b)
  {
    if p == [] {
      assert p + a == a && p + b == b;
    } else {
      SubBehind(p[1..], a, b);
      assert (p + a)[1..] == p[1..] + a && (p + b)[1..] == p[1..] + b;
    }
  }

  lemma {:induction false} SubSkip<X>(p: seq<X>, a: seq<X>, b: seq<X>)
    requires Sub(a, b)
    ensures Sub(a, p + b)
  {
    if p == [] {
      assert p + b == b;
    } else {
      SubSkip(p[1..], a, b);
      assert (p + b)[1..] == p[1..] + b;
    }
  }

  lemma {:induction false} SubBefore<X>(a: seq<X>, b: seq<X>, c: seq<X>)
    requires Sub(a, b)
    ensures Sub(a, b + c) && Sub(a + c, b + c)
    decreases |b|
  {
    if b == [] {
      assert b + c == c && a + c == c;
      SubSelf(c);
    } else {
      assert (b + c)[1..] == b[1..] + c;
      if a != [] && a[0] == b[0] && Sub(a[1..], b[1..]) {
        SubBefore(a[1..], b[1..], c);
        assert (a + c)[1..] == a[1..] + c;
      } else {
        SubBefore(a, b[1..], c);
      }
    }
  }

  lemma {:induction false} SubShorter<X>(a: seq<X>, b: seq<X>)
    requires Sub(a, b)
    ensures |a| <= |b|
    decreases |b|
  {
    if a != [] {
      if a[0] == b[0] && Sub(a[1..], b[1..]) {
        SubShorter(a[1..], b[1..]);
      } else {
        SubShorter(a, b[1..]);
      }
    }
  }

  class TSNodeStack {
    var items: array<Node>
    var count: nat

    ghost predicate Valid()
      reads this
    {
      count <= items.Length
    }

    ghost function Contents(): seq<Node>
      requires Valid()
      reads this, items
    {
      items[..count]
    }

    constructor (initialCap: nat)
      ensures Valid() && Contents() == [] && fresh(items) && items.Length == initialCap
    {
      items := new Node[initialCap](_ => Node("", false, 0, 0, []));
      count := 0;
    }

    /** `ts_nstack_push`; a refused growth drops the node. */
    method Push(node: Node, allocOk: bool)
      requires Valid()
      modifies this, items
      ensures Valid() && (items == old(items) || fresh(items))
      ensures Contents() == if old(count) < old(items.Length) || allocOk then old(Contents()) + [node] else old(Contents())
      ensures items.Length == if old(count) < old(items.Length) || !allocOk then old(items.Length)
                              else if old(items.Length) > 0 then 2 * old(items.Length) else 512
    {
      if count >= items.Length {
        if !allocOk {
          return;
        }
        var newCap := NextCap(items.Length);
        var larger := new Node[newCap](_ => node);
        forall i | 0 <= i < count {
          larger[i] := items[i];
        }
        assert larger[..count] == items[..count];
        items := larger;
      }
      items[count] := node;
      count := count + 1;
    }

    /** `ts_nstack_pop` */
    method Pop() returns (node: Node)
      requires Valid() && count > 0
      modifies this`count
      ensures Valid() && old(Contents()) == Contents() + [node]
    {
      count := count - 1;
      node := items[count];
    }

    /** Reverse items[base..count) by swapping from both ends. */
    method ReverseFrom(base: nat)
      requires Valid() && base <= count
      modifies items
      ensures Contents() == old(Contents()[..base]) + Reversed(old(Contents()[base..]))
    {
      var lo, hi := base, count - 1;
      ghost var was, mirror := Contents(), base + count - 1;
      while lo < hi
        invariant base <= lo <= hi + 1 && hi == mirror - lo
        invariant forall i | 0 <= i < base || lo <= i <= hi :: items[i] == was[i]
        invariant forall i | base <= i < lo :: items[i] == was[mirror - i] && items[mirror - i] == was[i]
        decreases hi - lo
      {
        items[lo], items[hi] := items[hi], items[lo];
        lo, hi := lo + 1, hi - 1;
      }
      MirrorDone(was, Contents(), base, lo, hi);
    }

    /** Push the nodes in turn. */
    method PushAll(nodes: seq<Node>, alloc: seq<bool>)
      requires Valid() && |alloc| == |nodes|
      modifies this, items
      ensures Valid() && (items == old(items) || fresh(items))
      ensures Contents() == old(Contents()) + Accepted(nodes, alloc, old(count), old(items.Length))
      ensures items.Length >= old(items.Length)
    {
      ghost var all := Contents() + Accepted(nodes, alloc, count, items.Length);
      assert nodes[0..] == nodes && alloc[0..] == alloc;
      for i := 0 to |nodes|
        invariant Valid() && (items == old(items) || fresh(items)) && items.Length >= old(items.Length)
        invariant Contents() + Accepted(nodes[i..], alloc[i..], count, items.Length) == all
      {
        AcceptedNext(Contents(), nodes, alloc, i, count, items.Length);
        Push(nodes[i], alloc[i]);
      }
    }

    /**
     `ts_nstack_push_children`: the same stack as pushing the children from last to first, except
     for those dropped by a refused growth.
     */
    method PushChildren(node: Node, alloc: seq<bool>)
      requires Valid() && |alloc| == |node.children|
      modifies this, items
      ensures Valid() && (items == old(items) || fresh(items))
      ensures Contents() == old(Contents()) + Reversed(Accepted(node.children, alloc, old(count), old(items.Length)))
      ensures items.Length >= old(items.Length)
    {
      var base := count;
      ghost var was := Contents();
      PushAll(node.children, alloc);
      assert Contents()[..base] == was;
      ReverseFrom(base);
    }
  }

  /** The nodes still to be visited, top of the stack first. */
  ghost function Pending(stack: seq<Node>): seq<Node> {
    if stack == [] then [] else PreOrder(stack[|stack| - 1]) + Pending(stack[..|stack| - 1])
  }

  /** Pushing the children of n in reverse leaves them to be visited in order, before the rest. */
  lemma {:induction false} PendingChildren(rest: seq<Node>, n: Node, i: nat)
    requires i <= |n.children|
    ensures Pending(rest + Reversed(n.children[i..])) == PreOrderFrom(n, i) + Pending(rest)
    decreases |n.children| - i
  {
    var cs := n.children[i..];
    if i == |n.children| {
      assert rest + Reversed(cs) == rest;
    } else {
      assert cs[1..] == n.children[i + 1..];
      var stack := rest + Reversed(cs);
      assert stack[..|stack| - 1] == rest + Reversed(cs[1..]);
      PendingChildren(rest, n, i + 1);
    }
  }

  ghost function PreOrders(cs: seq<Node>): seq<Node> {
    if cs == [] then [] else PreOrder(cs[0]) + PreOrders(cs[1..])
  }

  lemma {:induction false} PreOrdersFrom(n: Node, i: nat)
    requires i <= |n.children|
    ensures PreOrders(n.children[i..]) == PreOrderFrom(n, i)
    decreases |n.children| - i
  {
    if i < |n.children| {
      PreOrdersFrom(n, i + 1);
      assert n.children[i..][1..] == n.children[i + 1..];
    }
  }

  /** Pushing only some of the nodes leaves out what is below the others. */
  lemma {:induction false} PendingKept(rest: seq<Node>, kept: seq<Node>, cs: seq<Node>)
    requires Sub(kept, cs)
    ensures Sub(Pending(rest + Reversed(kept)), PreOrders(cs) + Pending(rest))
    decreases |cs|
  {
    if kept == [] {
      assert rest + Reversed(kept) == rest;
      SubSelf(Pending(rest));
      SubSkip(PreOrders(cs), Pending(rest), Pending(rest));
    } else if kept[0] == cs[0] && Sub(kept[1..], cs[1..]) {
      PendingKept(rest, kept[1..], cs[1..]);
      PendingTop(rest, kept);
      PendingTaken(PreOrder(cs[0]), Pending(rest + Reversed(kept[1..])), PreOrders(cs[1..]), Pending(rest));
    } else {
      PendingKept(rest, kept, cs[1..]);
      PendingLeft(PreOrder(cs[0]), Pending(rest + Reversed(kept)), PreOrders(cs[1..]), Pending(rest));
    }
  }

  lemma {:induction false} PendingTaken<X>(p: seq<X>, a: seq<X>, b: seq<X>, c: seq<X>)
    requires Sub(a, b + c)
    ensures Sub(p + a, p + b + c)
  {
    SubBehind(p, a, b + c);
    assert p + (b + c) == p + b + c;
  }

  lemma {:induction false} PendingLeft<X>(p: seq<X>, a: seq<X>, b: seq<X>, c: seq<X>)
    requires Sub(a, b + c)
    ensures Sub(a, p + b + c)
  {
    SubSkip(p, a, b + c);
    assert p + (b + c) == p + b + c;
  }

  lemma {:induction false} PendingTop(rest: seq<Node>, kept: seq<Node>)
    requires kept != []
    ensures Pending(rest + Reversed(kept)) == PreOrder(kept[0]) + Pending(rest + Reversed(kept[1..]))
  {
    var stack := rest + Reversed(kept);
    assert stack[..|stack| - 1] == rest + Reversed(kept[1..]);
  }

  /** Replacing the top node by some of its children takes that node off the front, and all of them if all are kept. */
  lemma {:induction false} VisitTop(rest: seq<Node>, n: Node, kept: seq<Node>)
    requires Sub(kept, n.children)
    ensures Sub([n] + Pending(rest + Reversed(kept)), Pending(rest + [n]))
    ensures kept == n.children ==> Pending(rest + [n]) == [n] + Pending(rest + Reversed(kept))
  {
    PendingNode(rest, n);
    AllChildren(rest, n);
    PendingKept(rest, kept, n.children);
    SubBehind([n], Pending(rest + Reversed(kept)), PreOrderFrom(n, 0) + Pending(rest));
  }

  lemma {:induction false} PendingNode(rest: seq<Node>, n: Node)
    ensures Pending(rest + [n]) == [n] + (PreOrderFrom(n, 0) + Pending(rest))
  {
    assert (rest + [n])[..|rest|] == rest;
  }

  lemma {:induction false} AllChildren(rest: seq<Node>, n: Node)
    ensures PreOrders(n.children) == PreOrderFrom(n, 0)
    ensures Pending(rest + Reversed(n.children)) == PreOrderFrom(n, 0) + Pending(rest)
  {
    assert n.children[0..] == n.children;
    PendingChildren(rest, n, 0);
    PreOrdersFrom(n, 0);
  }

  /** The walk so far and what is pending make up the tree, or part of it once a growth was refused. */
  ghost predicate Walking(root: Node, granted: bool, visited: seq<Node>, stack: seq<Node>) {
    && Sub(Behind(visited, Pending(stack)), PreOrder(root))
    && (granted ==> Behind(visited, Pending(stack)) == PreOrder(root))
  }

  /** One sequence after another. */
  ghost function Behind<X>(a: seq<X>, b: seq<X>): seq<X> {
    if a == [] then b else a + b
  }

  lemma {:induction false} BehindIs<X>(a: seq<X>, b: seq<X>)
    ensures Behind(a, b) == a + b
  {
    if a == [] {
      assert a + b == b;
    }
  }

  lemma {:induction false} WalkingStep(root: Node, granted: bool, visited: seq<Node>, rest: seq<Node>, n: Node, kept: seq<Node>)
    requires Walking(root, granted, visited, rest + [n]) && Sub(kept, n.children) && (granted ==> kept == n.children)
    ensures Walking(root, granted, visited + [n], rest + Reversed(kept))
    ensures |Pending(rest + Reversed(kept))| < |Pending(rest + [n])|
  {
    VisitTop(rest, n, kept);
    BehindIs(visited, Pending(rest + [n]));
    var later := Pending(rest + Reversed(kept));
    SubShorter([n] + later, Pending(rest + [n]));
    SubBehind(visited, [n] + later, Pending(rest + [n]));
    assert visited + [n] + later == visited + ([n] + later);
    SubTrans(visited + [n] + later, visited + Pending(rest + [n]), PreOrder(root));
  }

  // ----- nothing is lost but what is below a dropped node -----

  /** The nodes visited, those still to come and those below a dropped node are the nodes of the tree. */
  ghost predicate Conserved(root: Node, visited: seq<Node>, stack: seq<Node>, dropped: seq<Node>) {
    multiset(visited) + multiset(Pending(stack)) + multiset(PreOrders(dropped)) == multiset(PreOrder(root))
  }

  lemma {:induction false} PendingReversed(rest: seq<Node>, kept: seq<Node>)
    ensures Pending(rest + Reversed(kept)) == PreOrders(kept) + Pending(rest)
    decreases |kept|
  {
    if kept == [] {
      assert rest + Reversed(kept) == rest;
    } else {
      PendingTop(rest, kept);
      PendingReversed(rest, kept[1..]);
    }
  }

  lemma {:induction false} PreOrdersJoin(a: seq<Node>, b: seq<Node>)
    ensures PreOrders(a + b) == PreOrders(a) + PreOrders(b)
    decreases |a|
  {
    if a == [] {
      assert a + b == b;
    } else {
      assert (a + b)[1..] == a[1..] + b;
      PreOrdersJoin(a[1..], b);
    }
  }

  /** The nodes below `all` are those below `kept` and those below `left`. */
  ghost predicate Parted(kept: seq<Node>, left: seq<Node>, all: seq<Node>) {
    multiset(PreOrders(all)) == multiset(PreOrders(kept)) + multiset(PreOrders(left))
  }

  lemma {:induction false} PartedCons(n: Node, kept: seq<Node>, left: seq<Node>, all: seq<Node>)
    requires Parted(kept, left, all)
    ensures Parted([n] + kept, left, [n] + all) && Parted(kept, [n] + left, [n] + all)
  {
    PreOrdersCons(n, kept);
    PreOrdersCons(n, left);
    PreOrdersCons(n, all);
  }

  lemma {:induction false} AcceptedOrRejected(nodes: seq<Node>, alloc: seq<bool>, count: nat, cap: nat)
    requires |alloc| == |nodes| && count <= cap
    ensures Parted(Accepted(nodes, alloc, count, cap), Rejected(nodes, alloc, count, cap), nodes)
    decreases |nodes|
  {
    if nodes != [] {
      assert nodes == [nodes[0]] + nodes[1..];
      if count < cap {
        AcceptedOrRejected(nodes[1..], alloc[1..], count + 1, cap);
        PartedNext(nodes, alloc, count + 1, cap);
      } else if alloc[0] {
        AcceptedOrRejected(nodes[1..], alloc[1..], count + 1, NextCap(cap));
        PartedNext(nodes, alloc, count + 1, NextCap(cap));
      } else {
        AcceptedOrRejected(nodes[1..], alloc[1..], count, cap);
        PartedNext(nodes, alloc, count, cap);
      }
    }
  }

  lemma {:induction false} PartedNext(nodes: seq<Node>, alloc: seq<bool>, count: nat, cap: nat)
    requires |alloc| == |nodes| > 0 && count <= cap
    requires Parted(Accepted(nodes[1..], alloc[1..], count, cap), Rejected(nodes[1..], alloc[1..], count, cap), nodes[1..])
    ensures var kept, left := Accepted(nodes[1..], alloc[1..], count, cap), Rejected(nodes[1..], alloc[1..], count, cap);
            Parted([nodes[0]] + kept, left, nodes) && Parted(kept, [nodes[0]] + left, nodes)
  {
    PartedCons(nodes[0], Accepted(nodes[1..], alloc[1..], count, cap), Rejected(nodes[1..], alloc[1..], count, cap), nodes[1..]);
    assert [nodes[0]] + nodes[1..] == nodes;
  }

  lemma {:induction false} PreOrdersCons(n: Node, ns: seq<Node>)
    ensures PreOrders([n] + ns) == PreOrder(n) + PreOrders(ns)
  {
    assert ([n] + ns)[1..] == ns;
  }

  lemma {:induction false} ConservedStep(root: Node, visited: seq<Node>, rest: seq<Node>, n: Node, dropped: seq<Node>,
                                         kept: seq<Node>, left: seq<Node>)
    requires Conserved(root, visited, rest + [n], dropped)
    requires Parted(kept, left, n.children)
    ensures Conserved(root, visited + [n], rest + Reversed(kept), dropped + left)
  {
    PendingNode(rest, n);
    AllChildren(rest, n);
    PendingReversed(rest, kept);
    PreOrdersJoin(dropped, left);
  }

  lemma {:induction false} StackWithinPending(stack: seq<Node>)
    ensures |stack| <= |Pending(stack)|
  {
    if stack != [] {
      StackWithinPending(stack[..|stack| - 1]);
    }
  }

  /** A stack high enough for every node to come is high enough for the children pushed next. */
  lemma {:induction false} RoomForPending(rest: seq<Node>, n: Node)
    ensures |rest| + |n.children| < |Pending(rest + [n])|
  {
    PendingNode(rest, n);
    AllChildren(rest, n);
    StackWithinPending(rest + Reversed(n.children));
  }

  /** One round of the loop: the node is visited, its children accepted or dropped. */
  lemma {:induction false} RoundKeeps(root: Node, granted: bool, visited: seq<Node>, rest: seq<Node>, n: Node, dropped: seq<Node>,
                                      alloc: seq<bool>, cap: nat)
    requires |alloc| == |n.children| && |rest| <= cap
    requires granted ==> (forall i | 0 <= i < |alloc| :: alloc[i]) || |Pending(rest + [n])| <= cap
    requires InWalk(root, granted, visited, rest + [n], dropped)
    ensures var kept, left := Accepted(n.children, alloc, |rest|, cap), Rejected(n.children, alloc, |rest|, cap);
            && InWalk(root, granted, visited + [n], rest + Reversed(kept), dropped + left)
            && |Pending(rest + Reversed(kept))| < |Pending(rest + [n])|
  {
    RoomForPending(rest, n);
    AcceptedNodes(n.children, alloc, |rest|, cap);
    AcceptedOrRejected(n.children, alloc, |rest|, cap);
    WalkingStep(root, granted, visited, rest, n, Accepted(n.children, alloc, |rest|, cap));
    ConservedStep(root, visited, rest, n, dropped, Accepted(n.children, alloc, |rest|, cap), Rejected(n.children, alloc, |rest|, cap));
  }

  /** The outcomes of n allocation attempts from the t-th on. */
  function Grants(alloc: nat -> bool, t: nat, n: nat): (r: seq<bool>)
    ensures |r| == n && ((forall i :: alloc(i)) ==> forall i | 0 <= i < n :: r[i])
    decreases n
  {
    if n == 0 then [] else Grants(alloc, t, n - 1) + [alloc(t + n - 1)]
  }

  /** No growth will be refused: every allocation succeeds, or there is room for every node to come. */
  ghost predicate Assured(alloc: nat -> bool, pending: nat, cap: nat) {
    (forall t :: alloc(t)) || pending <= cap
  }

  /** Where the walk stands. */
  ghost predicate InWalk(root: Node, granted: bool, visited: seq<Node>, stack: seq<Node>, dropped: seq<Node>) {
    Walking(root, granted, visited, stack) && Conserved(root, visited, stack, dropped)
  }

  /** One round of the loop. */
  method VisitOne(root: Node, stack: TSNodeStack, visited: seq<Node>, alloc: nat -> bool, t: nat, ghost granted: bool,
                  ghost dropped: seq<Node>)
    returns (node: Node, ghost dropped': seq<Node>)
    requires stack.Valid() && stack.count > 0
    requires granted ==> Assured(alloc, |Pending(stack.Contents())|, stack.items.Length)
    requires InWalk(root, granted, visited, stack.Contents(), dropped)
    modifies stack, stack.items
    ensures stack.Valid() && (stack.items == old(stack.items) || fresh(stack.items))
    ensures InWalk(root, granted, visited + [node], stack.Contents(), dropped')
    ensures |Pending(stack.Contents())| < |Pending(old(stack.Contents()))|
    ensures granted ==> Assured(alloc, |Pending(stack.Contents())|, stack.items.Length)
  {
    node := stack.Pop();
    var grants := Grants(alloc, t, |node.children|);
    RoundKeeps(root, granted, visited, stack.Contents(), node, dropped, grants, stack.items.Length);
    dropped' := dropped + Rejected(node.children, grants, stack.count, stack.items.Length);
    stack.PushChildren(node, grants);
  }

  /** The loop, from any state of the walk on. */
  method Continue(root: Node, stack: TSNodeStack, start: seq<Node>, alloc: nat -> bool, ghost granted: bool,
                  ghost gone: seq<Node>)
    returns (visited: seq<Node>, ghost dropped: seq<Node>)
    requires stack.Valid() && (granted ==> Assured(alloc, |Pending(stack.Contents())|, stack.items.Length))
    requires InWalk(root, granted, start, stack.Contents(), gone)
    modifies stack, stack.items
    ensures InWalk(root, granted, visited, [], dropped)
  {
    visited, dropped := start, gone;
    var t: nat := 1;
    while stack.count > 0
      invariant stack.Valid() && (stack.items == old(stack.items) || fresh(stack.items))
      invariant InWalk(root, granted, visited, stack.Contents(), dropped)
      invariant granted ==> Assured(alloc, |Pending(stack.Contents())|, stack.items.Length)
      decreases |Pending(stack.Contents())|
    {
      var node;
      node, dropped := VisitOne(root, stack, visited, alloc, t, granted, dropped);
      visited := visited + [node];
      t := t + |node.children|;
    }
    assert stack.Contents() == [];
  }

  /**
   The loop of `walk_calls`; alloc(t) says whether the t-th allocation attempt would succeed. It
   terminates; every node is visited once, in pre-order, except exactly the nodes at and below those
   dropped by a refused growth.
   */
  method Walk(root: Node, initialCap: nat, alloc: nat -> bool) returns (visited: seq<Node>, ghost dropped: seq<Node>)
    ensures Sub(visited, PreOrder(root))
    ensures multiset(visited) + multiset(PreOrders(dropped)) == multiset(PreOrder(root))
    ensures (forall t :: alloc(t)) || |PreOrder(root)| <= initialCap ==> visited == PreOrder(root)
  {
    ghost var granted := Assured(alloc, |PreOrder(root)|, initialCap);
    var stack;
    stack, visited, dropped := Begin(root, initialCap, alloc(0), granted);
    visited, dropped := Continue(root, stack, visited, alloc, granted, dropped);
    WalkingEnd(root, granted, visited, dropped);
  }

  /** The stack before the first round: the root, unless even its growth was refused. */
  method Begin(root: Node, initialCap: nat, allocOk: bool, ghost granted: bool)
    returns (stack: TSNodeStack, visited: seq<Node>, ghost dropped: seq<Node>)
    requires granted ==> allocOk || |PreOrder(root)| <= initialCap
    ensures fresh(stack) && fresh(stack.items) && stack.Valid() && stack.items.Length >= initialCap
    ensures |Pending(stack.Contents())| <= |PreOrder(root)|
    ensures InWalk(root, granted, visited, stack.Contents(), dropped)
  {
    stack := new TSNodeStack(initialCap);
    stack.Push(root, allocOk);
    ghost var contents := stack.Contents();
    visited, dropped := [], if stack.count == 0 then [root] else [];
    StartKeeps(root, granted, contents, dropped);
  }

  lemma {:induction false} StartKeeps(root: Node, granted: bool, stack: seq<Node>, gone: seq<Node>)
    requires (stack == [root] && gone == []) || (stack == [] && gone == [root] && !granted)
    ensures InWalk(root, granted, [], stack, gone) && |Pending(stack)| <= |PreOrder(root)|
  {
    WalkingStart(root, granted, [], stack);
    ConservedStart(root, [], stack, gone);
  }

  lemma {:induction false} ConservedStart(root: Node, visited: seq<Node>, stack: seq<Node>, gone: seq<Node>)
    requires visited == [] && ((stack == [root] && gone == []) || (stack == [] && gone == [root]))
    ensures Conserved(root, visited, stack, gone)
  {
    assert [root][..0] == [] && [root][1..] == [];
    assert Pending([root]) == PreOrder(root) + Pending([]) && PreOrders([root]) == PreOrder(root) + PreOrders([]);
  }

  lemma {:induction false} WalkingEnd(root: Node, granted: bool, visited: seq<Node>, dropped: seq<Node>)
    requires InWalk(root, granted, visited, [], dropped)
    ensures Sub(visited, PreOrder(root)) && (granted ==> visited == PreOrder(root))
    ensures multiset(visited) + multiset(PreOrders(dropped)) == multiset(PreOrder(root))
  {
    BehindIs(visited, Pending([]));
    assert visited + Pending([]) == visited;
  }

  lemma {:induction false} WalkingStart(root: Node, granted: bool, visited: seq<Node>, stack: seq<Node>)
    requires visited == [] && (stack == [root] || (stack == [] && !granted))
    ensures Walking(root, granted, visited, stack) && |Pending(stack)| <= |PreOrder(root)|
  {
    if stack == [root] {
      assert stack[..0] == [];
      assert Pending(stack) == PreOrder(root) + Pending([]) == PreOrder(root);
      SubSelf(PreOrder(root));
    }
  }
}

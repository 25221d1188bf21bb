/** The scope stack of the unified walk: what it holds, what is derived from it, how it is kept. */
module Scopes {
  import opened Prelude

  const MAX_SCOPES: nat := 64

  datatype Scope =
    | Func(depth: nat, qn: string)
    | Class(depth: nat, qn: string)
    | Call(depth: nat)
    | Import(depth: nat)
    | Loop(depth: nat)
    | Branch(depth: nat)

  /** The fields of `WalkState` that handlers read. */
  datatype Derived = Derived(enclosingFunc: string, enclosingClass: Option<string>,
                             insideCall: bool, insideImport: bool, loopDepth: nat, branchDepth: nat)

  function Step(d: Derived, s: Scope): Derived {
    match s
    case Func(_, qn) => d.(enclosingFunc := qn)
    case Class(_, qn) => d.(enclosingClass := Some(qn))
    case Call(_) => d.(insideCall := true)
    case Import(_) => d.(insideImport := true)
    case Loop(_) => d.(loopDepth := d.loopDepth + 1)
    case Branch(_) => d.(branchDepth := d.branchDepth + 1)
  }

  /** What a stack of scopes means, outermost scope first. */
  function Derive(moduleQn: string, scopes: seq<Scope>): Derived {
    if scopes == [] then Derived(moduleQn, None, false, false, 0, 0)
    else Step(Derive(moduleQn, scopes[..|scopes| - 1]), scopes[|scopes| - 1])
  }

  /** Pushing stops silently at 64 scopes. */
  function Cap(scopes: seq<Scope>): seq<Scope> {
    if |scopes| <= MAX_SCOPES then scopes else scopes[..MAX_SCOPES]
  }

  /** The stack after popping every scope at or below the cursor's depth. */
  function Popped(scopes: seq<Scope>, depth: nat): seq<Scope> {
    if scopes != [] && scopes[|scopes| - 1].depth >= depth
    then Popped(scopes[..|scopes| - 1], depth)
    else scopes
  }

  /** Popping keeps exactly the shallow part of a stack that is shallow first, deep after. */
  lemma {:induction false} PopSplit(shallow: seq<Scope>, deep: seq<Scope>, depth: nat)
    requires forall i | 0 <= i < |shallow| :: shallow[i].depth < depth
    requires forall i | 0 <= i < |deep| :: deep[i].depth >= depth
    ensures Popped(shallow + deep, depth) == shallow
  {
    if deep == [] {
      assert shallow + deep == shallow;
    } else {
      var n := |deep| - 1;
      assert (shallow + deep)[..|shallow + deep| - 1] == shallow + deep[..n];
      PopSplit(shallow, deep[..n], depth);
    }
  }

  /** The same under the cap: overflowing scopes never displace shallow ones. */
  lemma PopCapped(shallow: seq<Scope>, deep: seq<Scope>, depth: nat)
    requires forall i | 0 <= i < |shallow| :: shallow[i].depth < depth
    requires forall i | 0 <= i < |deep| :: deep[i].depth >= depth
    ensures Popped(Cap(shallow + deep), depth) == Cap(shallow)
  {
    if |shallow| >= MAX_SCOPES {
      assert Cap(shallow + deep) == Cap(shallow) + [];
      PopSplit(Cap(shallow), [], depth);
    } else if |shallow + deep| > MAX_SCOPES {
      var d := deep[..MAX_SCOPES - |shallow|];
      assert Cap(shallow + deep) == shallow + d;
      PopSplit(shallow, d, depth);
    } else {
      PopSplit(shallow, deep, depth);
    }
  }

  /** Pushing several scopes one at a time caps their concatenation. */
  lemma CapTwice(a: seq<Scope>, b: seq<Scope>)
    ensures Cap(Cap(a) + b) == Cap(a + b)
  {
  }

  /** An optional scope as a stack segment. */
  function Segment(s: Option<Scope>): seq<Scope> {
    match s
    case None => []
    case Some(scope) => [scope]
  }

  lemma Regroup<X>(s: seq<X>, a: seq<X>, b: seq<X>, c: seq<X>, d: seq<X>)
    ensures s + a + b + c + d == s + (a + b + c + d)
  {
  }

  class WalkState {
    var scopes: array<Scope>
    var scopeTop: nat
    var derived: Derived

    ghost predicate Valid()
      reads this
    {
      scopes.Length == MAX_SCOPES && scopeTop <= MAX_SCOPES
    }

    ghost function Stack(): seq<Scope>
      requires Valid()
      reads this, scopes
    {
      scopes[..scopeTop]
    }

    constructor ()
      ensures Valid() && fresh(scopes) && Stack() == []
    {
      scopes := new Scope[MAX_SCOPES](_ => Call(0));
      scopeTop := 0;
      derived := Derived("", None, false, false, 0, 0);
    }

    /** `push_scope` */
    method Push(s: Scope)
      requires Valid()
      modifies this`scopeTop, scopes
      ensures Valid() && Stack() == Cap(old(Stack()) + [s])
    {
      if scopeTop >= MAX_SCOPES {
        assert Cap(Stack() + [s]) == Stack();
        return;
      }
      scopes[scopeTop] := s;
      scopeTop := scopeTop + 1;
    }

    method PushIfAny(s: Option<Scope>, ghost before: seq<Scope>)
      requires Valid() && Stack() == Cap(before)
      modifies this`scopeTop, scopes
      ensures Valid() && Stack() == Cap(before + Segment(s))
    {
      CapTwice(before, Segment(s));
      match s
      case None => assert before + Segment(s) == before;
      case Some(scope) => Push(scope);
    }

    /** The four optional pushes made at a boundary node. */
    method PushFour(a: Option<Scope>, b: Option<Scope>, c: Option<Scope>, d: Option<Scope>)
      requires Valid()
      modifies this`scopeTop, scopes
      ensures Valid()
      ensures Stack() == Cap(old(Stack()) + (Segment(a) + Segment(b) + Segment(c) + Segment(d)))
    {
      ghost var s1 := Stack() + Segment(a);
      ghost var s2 := s1 + Segment(b);
      ghost var s3 := s2 + Segment(c);
      Regroup(Stack(), Segment(a), Segment(b), Segment(c), Segment(d));
      PushIfAny(a, Stack());
      PushIfAny(b, s1);
      PushIfAny(c, s2);
      PushIfAny(d, s3);
    }

    /** `pop_expired_scopes` */
    method PopExpired(depth: nat)
      requires Valid()
      modifies this`scopeTop
      ensures Valid() && Stack() == Popped(old(Stack()), depth)
    {
      while scopeTop > 0 && scopes[scopeTop - 1].depth >= depth
        invariant Valid()
        invariant Popped(Stack(), depth) == Popped(old(Stack()), depth)
        decreases scopeTop
      {
        assert Stack()[..scopeTop - 1] == scopes[..scopeTop - 1];
        scopeTop := scopeTop - 1;
      }
    }

    /** `recompute_state` */
    method Recompute(moduleQn: string)
      requires Valid()
      modifies this`derived
      ensures derived == Derive(moduleQn, Stack())
    {
      derived := Derived(moduleQn, None, false, false, 0, 0);
      for i := 0 to scopeTop
        invariant derived == Derive(moduleQn, scopes[..i])
      {
        assert scopes[..i + 1][..i] == scopes[..i];
        derived := Step(derived, scopes[i]);
      }
    }
  }
}

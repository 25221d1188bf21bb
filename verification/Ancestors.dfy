/**
 What the walk state means in terms of a node's ancestors, and how it relates to the ten-level
 parent walk `is_inside_call` that it replaces.
 */
module Ancestors {
  import opened Prelude
  import opened Tree
  import opened Levels
  import opened Scopes
  import opened UnifiedWalk

  /** The state read off the ancestors of p directly, root first, with no stack and no cap. */
  ghost function AncestorState(ctx: Context, root: Node, p: Path): Derived
    requires ValidPath(root, p)
    decreases |p|
  {
    if p == [] then Derived(ctx.moduleQn, None, false, false, 0, 0)
    else
      ParentPath(root, p);
      var n, d := At(root, Tree.Parent(p)), AncestorState(ctx, root, Tree.Parent(p));
      WithChild(d, OpensDefinition(ctx, n, Tree.Parent(p), d.enclosingClass),
                IsCall(ctx, n), IsImport(ctx, n), IsLoop(ctx, n), IsBranch(ctx, n))
  }

  /** The state below an ancestor that opens `definition` and has the given properties. */
  ghost function WithChild(d: Derived, definition: Option<Scope>, call: bool, imports: bool,
                           loop: bool, branch: bool): Derived
  {
    Derived(if definition.Some? && definition.value.Func? then definition.value.qn else d.enclosingFunc,
            if definition.Some? && definition.value.Class? then Some(definition.value.qn) else d.enclosingClass,
            d.insideCall || call,
            d.insideImport || imports,
            d.loopDepth + (if loop then 1 else 0),
            d.branchDepth + (if branch then 1 else 0))
  }

  function StepIfAny(d: Derived, s: Option<Scope>): Derived {
    match s
    case None => d
    case Some(scope) => Step(d, scope)
  }

  lemma DeriveSegment(moduleQn: string, before: seq<Scope>, s: Option<Scope>)
    ensures Derive(moduleQn, before + Segment(s)) == StepIfAny(Derive(moduleQn, before), s)
  {
    match s
    case None =>
      assert before + Segment(s) == before;
    case Some(scope) =>
      assert (before + [scope])[..|before + [scope]| - 1] == before;
  }

  lemma DeriveFour(moduleQn: string, before: seq<Scope>, a: Option<Scope>, b: Option<Scope>,
                   c: Option<Scope>, d: Option<Scope>)
    ensures Derive(moduleQn, before + (Segment(a) + Segment(b) + Segment(c) + Segment(d))) ==
            StepIfAny(StepIfAny(StepIfAny(StepIfAny(Derive(moduleQn, before), a), b), c), d)
  {
    Regroup(before, Segment(a), Segment(b), Segment(c), Segment(d));
    DeriveSegment(moduleQn, before, a);
    DeriveSegment(moduleQn, before + Segment(a), b);
    DeriveSegment(moduleQn, before + Segment(a) + Segment(b), c);
    DeriveSegment(moduleQn, before + Segment(a) + Segment(b) + Segment(c), d);
  }

  /** One ancestor's contribution: the fields after its scopes are those before, updated by it. */
  ghost function Entered(ctx: Context, n: Node, p: Path, d: Derived): Derived {
    StepIfAny(StepIfAny(StepIfAny(StepIfAny(d, OpensDefinition(ctx, n, p, d.enclosingClass)),
                                  OpensCall(ctx, n, p)), OpensImport(ctx, n, p)), OpensNesting(ctx, n, p))
  }

  lemma EnteredIsAncestorStep(ctx: Context, root: Node, p: Path)
    requires ValidPath(root, p) && p != []
    ensures ValidPath(root, Tree.Parent(p))
    ensures AncestorState(ctx, root, p) ==
            Entered(ctx, At(root, Tree.Parent(p)), Tree.Parent(p), AncestorState(ctx, root, Tree.Parent(p)))
  {
    ParentPath(root, p);
    var r := Tree.Parent(p);
    EnteredFields(ctx, At(root, r), r, AncestorState(ctx, root, r));
  }

  lemma EnteredFields(ctx: Context, n: Node, p: Path, d: Derived)
    ensures Entered(ctx, n, p, d) ==
            WithChild(d, OpensDefinition(ctx, n, p, d.enclosingClass),
                      IsCall(ctx, n), IsImport(ctx, n), IsLoop(ctx, n), IsBranch(ctx, n))
  {
    var definition := OpensDefinition(ctx, n, p, d.enclosingClass);
    DefinitionIsNamed(ctx, n, p, d.enclosingClass);
    FourFields(d, definition, OpensCall(ctx, n, p), OpensImport(ctx, n, p), OpensNesting(ctx, n, p));
  }

  lemma DefinitionIsNamed(ctx: Context, n: Node, p: Path, enclosingClass: Option<string>)
    ensures var s := OpensDefinition(ctx, n, p, enclosingClass); s.Some? ==> s.value.Func? || s.value.Class?
  {
  }

  lemma FourFields(d: Derived, a: Option<Scope>, b: Option<Scope>, c: Option<Scope>, e: Option<Scope>)
    requires a.Some? ==> a.value.Func? || a.value.Class?
    requires b.Some? ==> b.value.Call?
    requires c.Some? ==> c.value.Import?
    requires e.Some? ==> e.value.Loop? || e.value.Branch?
    ensures StepIfAny(StepIfAny(StepIfAny(StepIfAny(d, a), b), c), e) ==
            WithChild(d, a, b.Some?, c.Some?, e.Some? && e.value.Loop?, e.Some? && e.value.Branch?)
  {
    var d1 := StepIfAny(d, a);
    assert d1 == WithChild(d, a, false, false, false, false);
    var d2 := StepIfAny(d1, b);
    assert d2 == WithChild(d, a, b.Some?, false, false, false);
    var d3 := StepIfAny(d2, c);
    assert d3 == WithChild(d, a, b.Some?, c.Some?, false, false);
  }

  // ----- the scopes of all ancestors, uncapped -----

  /** Every scope the proper ancestors of p open, each function under the class that really encloses it. */
  ghost function AllOpened(ctx: Context, root: Node, p: Path): seq<Scope>
    requires ValidPath(root, p)
    decreases |p|
  {
    if p == [] then []
    else
      ParentPath(root, p);
      var r := Tree.Parent(p);
      AllOpened(ctx, root, r) + Opens(ctx, At(root, r), r, AncestorState(ctx, root, r).enclosingClass)
  }

  /** The ancestors' state is what all their scopes together mean. */
  lemma {:induction false} AllOpenedMeans(ctx: Context, root: Node, p: Path)
    requires ValidPath(root, p)
    ensures Derive(ctx.moduleQn, AllOpened(ctx, root, p)) == AncestorState(ctx, root, p)
    decreases |p|
  {
    if p != [] {
      ParentPath(root, p);
      var r := Tree.Parent(p);
      AllOpenedMeans(ctx, root, r);
      EnteredIsAncestorStep(ctx, root, p);
      var n, cls := At(root, r), AncestorState(ctx, root, r).enclosingClass;
      DeriveFour(ctx.moduleQn, AllOpened(ctx, root, r), OpensDefinition(ctx, n, r, cls),
                 OpensCall(ctx, n, r), OpensImport(ctx, n, r), OpensNesting(ctx, n, r));
    }
  }

  /** How many scopes a node opens does not depend on the class around it. */
  lemma SameMany(ctx: Context, n: Node, p: Path, a: Option<string>, b: Option<string>)
    ensures |Opens(ctx, n, p, a)| == |Opens(ctx, n, p, b)|
  {
  }

  lemma CapPrefix(a: seq<Scope>, a': seq<Scope>, b: seq<Scope>, b': seq<Scope>)
    requires |a| == |b| > MAX_SCOPES && Cap(a) == Cap(b)
    ensures Cap(a + a') == Cap(b + b')
  {
    assert Cap(a + a') == Cap(a) && Cap(b + b') == Cap(b);
  }

  /** Whatever is lost past the cap, the first 64 scopes are the true ones. */
  lemma {:induction false} FirstScopesTrue(ctx: Context, root: Node, p: Path)
    requires ValidPath(root, p)
    ensures |AllOpened(ctx, root, p)| == |Opened(ctx, root, p)|
    ensures Cap(AllOpened(ctx, root, p)) == Cap(Opened(ctx, root, p))
    decreases |p|
  {
    if p != [] {
      ParentPath(root, p);
      var r := Tree.Parent(p);
      FirstScopesTrue(ctx, root, r);
      AllOpenedMeans(ctx, root, r);
      var n, truly, seen := At(root, r), AncestorState(ctx, root, r).enclosingClass, StateAt(ctx, root, r).enclosingClass;
      SameMany(ctx, n, r, truly, seen);
      if |Opened(ctx, root, r)| > MAX_SCOPES {
        CapPrefix(AllOpened(ctx, root, r), Opens(ctx, n, r, truly), Opened(ctx, root, r), Opens(ctx, n, r, seen));
      }
    }
  }

  /** While at most 64 scopes are open above p, the walk state at p is the ancestors' state. */
  lemma StateIsAncestors(ctx: Context, root: Node, p: Path)
    requires ValidPath(root, p) && |Opened(ctx, root, p)| <= 64
    ensures StateAt(ctx, root, p) == AncestorState(ctx, root, p)
  {
    FirstScopesTrue(ctx, root, p);
    AllOpenedMeans(ctx, root, p);
  }

  // ----- what the fields say of the ancestors -----

  /** The four counted and boolean fields: which ancestors they speak of, by the tables of the language. */
  lemma {:induction false} AncestorStateMeaning(ctx: Context, root: Node, p: Path)
    requires ValidPath(root, p)
    ensures var d := AncestorState(ctx, root, p);
            && d.loopDepth == |LevelsWhere(root, p, (n: Node) => n.named && n.kind in ctx.loopTypes)|
            && d.branchDepth == |LevelsWhere(root, p, (n: Node) => !(n.named && n.kind in ctx.loopTypes) && n.kind in ctx.branchingTypes)|
            && (d.insideCall <==> LevelsWhere(root, p, (n: Node) => n.kind in ctx.callTypes) != {})
            && (d.insideImport <==> LevelsWhere(root, p, (n: Node) => ImportsByTable(ctx, n)) != {})
    decreases |p|
  {
    if p != [] {
      ParentPath(root, p);
      AncestorStateMeaning(ctx, root, Tree.Parent(p));
      LevelsStep(root, p, (n: Node) => n.named && n.kind in ctx.loopTypes);
      LevelsStep(root, p, (n: Node) => !(n.named && n.kind in ctx.loopTypes) && n.kind in ctx.branchingTypes);
      LevelsStep(root, p, (n: Node) => n.kind in ctx.callTypes);
      LevelsStep(root, p, (n: Node) => ImportsByTable(ctx, n));
    }
  }

  /** Listed as an import, and no export statement around a declaration. */
  ghost predicate ImportsByTable(ctx: Context, n: Node) {
    && n.kind in ctx.importTypes
    && (n.kind == "export_statement" ==> forall c | c in n.children :: c.kind !in ctx.declarationTypes)
  }

  // ----- the innermost definition -----

  /** The definition scope opened by p's ancestor at level k. */
  ghost function DefinitionAt(ctx: Context, root: Node, p: Path, k: nat): Option<Scope>
    requires ValidPath(root, p) && k < |p|
  {
    PrefixPath(root, p, k);
    OpensDefinition(ctx, At(root, p[..k]), p[..k], AncestorState(ctx, root, p[..k]).enclosingClass)
  }

  ghost predicate OpensFunc(ctx: Context, root: Node, p: Path, k: nat)
    requires ValidPath(root, p) && k < |p|
  {
    var d := DefinitionAt(ctx, root, p, k); d.Some? && d.value.Func?
  }

  ghost predicate OpensClass(ctx: Context, root: Node, p: Path, k: nat)
    requires ValidPath(root, p) && k < |p|
  {
    var d := DefinitionAt(ctx, root, p, k); d.Some? && d.value.Class?
  }

  lemma DefinitionStep(ctx: Context, root: Node, p: Path, k: nat)
    requires ValidPath(root, p) && k < |p|
    ensures ValidPath(root, Tree.Parent(p))
    ensures k < |p| - 1 ==> DefinitionAt(ctx, root, p, k) == DefinitionAt(ctx, root, Tree.Parent(p), k)
  {
    ParentPath(root, p);
    assert p[..k] == Tree.Parent(p)[..k];
  }

  lemma LastDefinition(ctx: Context, root: Node, p: Path)
    requires ValidPath(root, p) && p != []
    ensures ValidPath(root, Tree.Parent(p))
    ensures var d, above, below := DefinitionAt(ctx, root, p, |p| - 1), AncestorState(ctx, root, Tree.Parent(p)), AncestorState(ctx, root, p);
            && below.enclosingFunc == (if d.Some? && d.value.Func? then d.value.qn else above.enclosingFunc)
            && below.enclosingClass == (if d.Some? && d.value.Class? then Some(d.value.qn) else above.enclosingClass)
  {
    ParentPath(root, p);
    assert p[..|p| - 1] == Tree.Parent(p);
  }

  /** The enclosing function is that of the innermost ancestor that opens one ... */
  lemma {:induction false} EnclosingFunc(ctx: Context, root: Node, p: Path, k: nat)
    requires ValidPath(root, p) && k < |p| && OpensFunc(ctx, root, p, k)
    requires forall j: nat | k < j < |p| :: !OpensFunc(ctx, root, p, j)
    ensures AncestorState(ctx, root, p).enclosingFunc == DefinitionAt(ctx, root, p, k).value.qn
    decreases |p|
  {
    LastDefinition(ctx, root, p);
    if k < |p| - 1 {
      assert !OpensFunc(ctx, root, p, |p| - 1);
      forall j: nat | k <= j < |p| - 1
        ensures OpensFunc(ctx, root, Tree.Parent(p), j) <==> OpensFunc(ctx, root, p, j)
      {
        DefinitionStep(ctx, root, p, j);
      }
      DefinitionStep(ctx, root, p, k);
      EnclosingFunc(ctx, root, Tree.Parent(p), k);
    }
  }

  /** ... and the module itself when none does. */
  lemma {:induction false} NoEnclosingFunc(ctx: Context, root: Node, p: Path)
    requires ValidPath(root, p) && forall j: nat | j < |p| :: !OpensFunc(ctx, root, p, j)
    ensures AncestorState(ctx, root, p).enclosingFunc == ctx.moduleQn
    decreases |p|
  {
    if p != [] {
      LastDefinition(ctx, root, p);
      assert !OpensFunc(ctx, root, p, |p| - 1);
      forall j: nat | j < |p| - 1 ensures !OpensFunc(ctx, root, Tree.Parent(p), j) {
        DefinitionStep(ctx, root, p, j);
        assert !OpensFunc(ctx, root, p, j);
      }
      NoEnclosingFunc(ctx, root, Tree.Parent(p));
    }
  }

  /** The enclosing class is that of the innermost ancestor that opens one. */
  lemma {:induction false} EnclosingClass(ctx: Context, root: Node, p: Path, k: nat)
    requires ValidPath(root, p) && k < |p| && OpensClass(ctx, root, p, k)
    requires forall j: nat | k < j < |p| :: !OpensClass(ctx, root, p, j)
    ensures AncestorState(ctx, root, p).enclosingClass == Some(DefinitionAt(ctx, root, p, k).value.qn)
    decreases |p|
  {
    LastDefinition(ctx, root, p);
    if k < |p| - 1 {
      assert !OpensClass(ctx, root, p, |p| - 1);
      forall j: nat | k <= j < |p| - 1
        ensures OpensClass(ctx, root, Tree.Parent(p), j) <==> OpensClass(ctx, root, p, j)
      {
        DefinitionStep(ctx, root, p, j);
      }
      DefinitionStep(ctx, root, p, k);
      EnclosingClass(ctx, root, Tree.Parent(p), k);
    }
  }

  /** Without such an ancestor there is no enclosing class. */
  lemma {:induction false} NoEnclosingClass(ctx: Context, root: Node, p: Path)
    requires ValidPath(root, p) && forall j: nat | j < |p| :: !OpensClass(ctx, root, p, j)
    ensures AncestorState(ctx, root, p).enclosingClass == None
    decreases |p|
  {
    if p != [] {
      LastDefinition(ctx, root, p);
      assert !OpensClass(ctx, root, p, |p| - 1);
      forall j: nat | j < |p| - 1 ensures !OpensClass(ctx, root, Tree.Parent(p), j) {
        DefinitionStep(ctx, root, p, j);
        assert !OpensClass(ctx, root, p, j);
      }
      NoEnclosingClass(ctx, root, Tree.Parent(p));
    }
  }

  // ----- the names, by kinds and names of ancestors alone -----

  /** The name the ancestor of p at level k has as a function. */
  ghost function FuncNameAt(ctx: Context, root: Node, p: Path, k: nat): Option<string> {
    if k < |p| && ValidPath(root, p[..k]) && At(root, p[..k]).kind in ctx.functionTypes then ctx.funcName(p[..k]) else None
  }

  /** The name it has as a class: a listed class type, or in Rust an impl block; a function is no class. */
  ghost function ClassNameAt(ctx: Context, root: Node, p: Path, k: nat): Option<string> {
    if !(k < |p| && ValidPath(root, p[..k])) || At(root, p[..k]).kind in ctx.functionTypes then None
    else if At(root, p[..k]).kind in ctx.classTypes then ctx.className(p[..k])
    else if ctx.rust && At(root, p[..k]).kind == "impl_item" then ctx.implType(p[..k])
    else None
  }

  /** f is the name of the innermost named function among the ancestors of p, which is at level k. */
  ghost predicate InnermostFunc(ctx: Context, root: Node, p: Path, k: nat, f: string) {
    && FuncNameAt(ctx, root, p, k) == Some(f)
    && forall j: nat | k < j :: FuncNameAt(ctx, root, p, j) == None
  }

  /** c is the name of the innermost named class among the ancestors of p above level k, if there is one. */
  ghost predicate InnermostClass(ctx: Context, root: Node, p: Path, k: nat, c: Option<string>) {
    match c
    case None => forall j: nat | j < k :: ClassNameAt(ctx, root, p, j) == None
    case Some(name) => exists i: nat :: InnermostClassAt(ctx, root, p, k, i, name)
  }

  ghost predicate InnermostClassAt(ctx: Context, root: Node, p: Path, k: nat, i: nat, name: string) {
    i < k && ClassNameAt(ctx, root, p, i) == Some(name) && forall j: nat | i < j < k :: ClassNameAt(ctx, root, p, j) == None
  }

  lemma OpensByName(ctx: Context, root: Node, p: Path, k: nat)
    requires ValidPath(root, p) && k < |p|
    ensures OpensFunc(ctx, root, p, k) <==> FuncNameAt(ctx, root, p, k).Some?
    ensures OpensClass(ctx, root, p, k) <==> ClassNameAt(ctx, root, p, k).Some?
    ensures OpensClass(ctx, root, p, k) ==> DefinitionAt(ctx, root, p, k).value.qn == ctx.fqn(ClassNameAt(ctx, root, p, k).value)
  {
    PrefixPath(root, p, k);
  }

  /** What the ancestors' state says of the class, in terms of the innermost named one. */
  lemma ClassByName(ctx: Context, root: Node, p: Path, c: Option<string>)
    requires ValidPath(root, p) && InnermostClass(ctx, root, p, |p|, c)
    ensures AncestorState(ctx, root, p).enclosingClass == if c.None? then None else Some(ctx.fqn(c.value))
  {
    forall j: nat | j < |p| ensures OpensClass(ctx, root, p, j) <==> ClassNameAt(ctx, root, p, j).Some? {
      OpensByName(ctx, root, p, j);
    }
    match c
    case None =>
      NoEnclosingClass(ctx, root, p);
    case Some(name) =>
      var i: nat :| InnermostClassAt(ctx, root, p, |p|, i, name);
      OpensByName(ctx, root, p, i);
      EnclosingClass(ctx, root, p, i);
  }

  lemma ClassAbove(ctx: Context, root: Node, p: Path, k: nat, c: Option<string>)
    requires ValidPath(root, p) && k <= |p| && InnermostClass(ctx, root, p, k, c)
    ensures ValidPath(root, p[..k]) && InnermostClass(ctx, root, p[..k], k, c)
  {
    PrefixPath(root, p, k);
    forall j: nat | j < k ensures ClassNameAt(ctx, root, p[..k], j) == ClassNameAt(ctx, root, p, j) {
      assert p[..k][..j] == p[..j];
    }
    if c.Some? {
      var i: nat :| InnermostClassAt(ctx, root, p, k, i, c.value);
      assert InnermostClassAt(ctx, root, p[..k], k, i, c.value);
    }
  }

  /** What it says of the function: the function's name behind its class, or behind the file in Wolfram or without a class. */
  lemma FuncByName(ctx: Context, root: Node, p: Path, k: nat, f: string, c: Option<string>)
    requires ValidPath(root, p) && InnermostFunc(ctx, root, p, k, f) && InnermostClass(ctx, root, p, k, c)
    ensures AncestorState(ctx, root, p).enclosingFunc ==
            if ctx.wolfram || c.None? then ctx.fqn(f) else ctx.fqn(c.value) + "." + f
  {
    forall j: nat | j < |p| ensures OpensFunc(ctx, root, p, j) <==> FuncNameAt(ctx, root, p, j).Some? {
      OpensByName(ctx, root, p, j);
    }
    EnclosingFunc(ctx, root, p, k);
    ClassAbove(ctx, root, p, k, c);
    ClassByName(ctx, root, p[..k], c);
  }

  /**
   The names the walk state gives while at most 64 scopes are open, in terms of tree and context
   alone: the innermost named class, and the innermost named function behind the class around it.
   */
  lemma NamesByKind(ctx: Context, root: Node, p: Path, c: Option<string>)
    requires ValidPath(root, p) && |Opened(ctx, root, p)| <= 64
    ensures InnermostClass(ctx, root, p, |p|, c) ==>
              StateAt(ctx, root, p).enclosingClass == if c.None? then None else Some(ctx.fqn(c.value))
    ensures forall k: nat, f | InnermostFunc(ctx, root, p, k, f) && InnermostClass(ctx, root, p, k, c) ::
              StateAt(ctx, root, p).enclosingFunc == if ctx.wolfram || c.None? then ctx.fqn(f) else ctx.fqn(c.value) + "." + f
    ensures (forall j: nat :: FuncNameAt(ctx, root, p, j) == None) ==> StateAt(ctx, root, p).enclosingFunc == ctx.moduleQn
  {
    StateIsAncestors(ctx, root, p);
    if InnermostClass(ctx, root, p, |p|, c) {
      ClassByName(ctx, root, p, c);
    }
    forall k: nat, f | InnermostFunc(ctx, root, p, k, f) && InnermostClass(ctx, root, p, k, c)
      ensures AncestorState(ctx, root, p).enclosingFunc == if ctx.wolfram || c.None? then ctx.fqn(f) else ctx.fqn(c.value) + "." + f
    {
      FuncByName(ctx, root, p, k, f, c);
    }
    if forall j: nat :: FuncNameAt(ctx, root, p, j) == None {
      forall j: nat | j < |p| ensures !OpensFunc(ctx, root, p, j) {
        OpensByName(ctx, root, p, j);
      }
      NoEnclosingFunc(ctx, root, p);
    }
  }

  // ----- the parent walk -----

  const MAX_PARENT_DEPTH: nat := 10

  /** The ancestor of p at level k is a call. */
  ghost predicate CallAt(ctx: Context, root: Node, p: Path, k: nat) {
    AncestorIs(root, p, (n: Node) => n.kind in ctx.callTypes, k)
  }

  /** Some call is among the nearest `levels` ancestors of p. */
  ghost predicate CallWithin(ctx: Context, root: Node, p: Path, levels: nat) {
    exists k: nat :: |p| - levels <= k && CallAt(ctx, root, p, k)
  }

  /** `is_inside_call`: climb at most ten parents looking for a call. */
  method IsInsideCall(ctx: Context, root: Node, p: Path) returns (inside: bool)
    requires ValidPath(root, p)
    ensures inside <==> CallWithin(ctx, root, p, 10)
  {
    var cur := if p == [] then None else Some(Tree.Parent(p));
    if cur.Some? {
      ParentPath(root, p);
    }
    var depth := 0;
    while cur.Some? && depth < MAX_PARENT_DEPTH
      invariant 0 <= depth <= MAX_PARENT_DEPTH
      invariant cur.Some? ==> depth < |p| && cur.value == p[..|p| - 1 - depth] && ValidPath(root, cur.value)
      invariant cur.None? ==> depth == |p|
      invariant forall k: nat | |p| - depth <= k :: !CallAt(ctx, root, p, k)
      decreases MAX_PARENT_DEPTH - depth
    {
      if IsCall(ctx, At(root, cur.value)) {
        assert CallAt(ctx, root, p, |p| - 1 - depth);
        return true;
      }
      if cur.value == [] {
        cur := None;
      } else {
        ParentPath(root, cur.value);
        assert Tree.Parent(cur.value) == p[..|p| - 2 - depth];
        cur := Some(Tree.Parent(cur.value));
      }
      depth := depth + 1;
    }
    return false;
  }

  /**
   While at most 64 scopes are open, a parent walk that finds a call is confirmed by the walk
   state, and the two agree exactly when the nearest call above, if there is one, is within ten
   levels.
   */
  lemma InsideCallAgreement(ctx: Context, root: Node, p: Path)
    requires ValidPath(root, p) && |Opened(ctx, root, p)| <= 64
    ensures CallWithin(ctx, root, p, 10) ==> StateAt(ctx, root, p).insideCall
    ensures (CallWithin(ctx, root, p, 10) <==> StateAt(ctx, root, p).insideCall) <==>
            (CallWithin(ctx, root, p, |p|) ==> CallWithin(ctx, root, p, 10))
  {
    StateIsAncestors(ctx, root, p);
    AncestorStateMeaning(ctx, root, p);
    if StateAt(ctx, root, p).insideCall {
      var k :| k in LevelsWhere(root, p, (n: Node) => n.kind in ctx.callTypes);
      assert CallAt(ctx, root, p, k);
    }
    if CallWithin(ctx, root, p, |p|) {
      var k: nat :| |p| - |p| <= k && CallAt(ctx, root, p, k);
      assert k in LevelsWhere(root, p, (n: Node) => n.kind in ctx.callTypes);
    }
    if CallWithin(ctx, root, p, MAX_PARENT_DEPTH) {
      var k: nat :| |p| - MAX_PARENT_DEPTH <= k && CallAt(ctx, root, p, k);
      assert |p| - |p| <= k;
    }
  }

  // ----- past the cap -----

  /** How many scopes are of a sort. */
  ghost function Count(scopes: seq<Scope>, test: Scope -> bool): nat {
    if scopes == [] then 0 else Count(scopes[..|scopes| - 1], test) + if test(scopes[|scopes| - 1]) then 1 else 0
  }

  predicate LoopScope(s: Scope) {
    s.Loop?
  }

  predicate BranchScope(s: Scope) {
    s.Branch?
  }

  predicate CallScope(s: Scope) {
    s.Call?
  }

  predicate ImportScope(s: Scope) {
    s.Import?
  }

  /** The name of the innermost function scope. */
  ghost function LastFunc(scopes: seq<Scope>): Option<string> {
    if scopes == [] then None
    else match scopes[|scopes| - 1]
      case Func(_, qn) => Some(qn)
      case _ => LastFunc(scopes[..|scopes| - 1])
  }

  /** The name of the innermost class scope. */
  ghost function LastClass(scopes: seq<Scope>): Option<string> {
    if scopes == [] then None
    else match scopes[|scopes| - 1]
      case Class(_, qn) => Some(qn)
      case _ => LastClass(scopes[..|scopes| - 1])
  }

  /** d is s with the further scopes `more` taken into account, field by field. */
  ghost predicate Extends(s: Derived, more: seq<Scope>, d: Derived) {
    && d.enclosingFunc == (if LastFunc(more).Some? then LastFunc(more).value else s.enclosingFunc)
    && d.enclosingClass == (if LastClass(more).Some? then LastClass(more) else s.enclosingClass)
    && (d.insideCall <==> s.insideCall || Count(more, CallScope) > 0)
    && (d.insideImport <==> s.insideImport || Count(more, ImportScope) > 0)
    && d.loopDepth == s.loopDepth + Count(more, LoopScope)
    && d.branchDepth == s.branchDepth + Count(more, BranchScope)
  }

  lemma {:induction false} DeriveMore(moduleQn: string, scopes: seq<Scope>, more: seq<Scope>)
    ensures Extends(Derive(moduleQn, scopes), more, Derive(moduleQn, scopes + more))
  {
    if more == [] {
      assert scopes + more == scopes;
    } else {
      var n := |more| - 1;
      assert (scopes + more)[..|scopes + more| - 1] == scopes + more[..n];
      DeriveMore(moduleQn, scopes, more[..n]);
      ExtendsStep(Derive(moduleQn, scopes), more, Derive(moduleQn, scopes + more[..n]));
    }
  }

  lemma ExtendsStep(s: Derived, more: seq<Scope>, d: Derived)
    requires more != [] && Extends(s, more[..|more| - 1], d)
    ensures Extends(s, more, Step(d, more[|more| - 1]))
  {
  }

  /** The scopes that found no place on the stack. */
  ghost function Overflow(scopes: seq<Scope>): seq<Scope> {
    if |scopes| <= MAX_SCOPES then [] else scopes[MAX_SCOPES..]
  }

  /** The scopes of p's ancestors that found no place. */
  ghost function Lost(ctx: Context, root: Node, p: Path): seq<Scope>
    requires ValidPath(root, p)
  {
    Overflow(AllOpened(ctx, root, p))
  }

  /**
   Exactly what the cap of 64 costs, field by field: the ancestors' state is the walk state with
   the lost scopes taken into account.
   */
  lemma PastTheCap(ctx: Context, root: Node, p: Path)
    requires ValidPath(root, p)
    ensures Extends(StateAt(ctx, root, p), Lost(ctx, root, p), AncestorState(ctx, root, p))
  {
    var all := AllOpened(ctx, root, p);
    FirstScopesTrue(ctx, root, p);
    AllOpenedMeans(ctx, root, p);
    assert all == Cap(all) + Overflow(all);
    DeriveMore(ctx.moduleQn, Cap(all), Overflow(all));
  }

  /** Losing the scopes changes nothing: no loop or branch among them, and nothing new about the rest. */
  ghost predicate Harmless(s: Derived, lost: seq<Scope>) {
    && (LastFunc(lost).Some? ==> LastFunc(lost).value == s.enclosingFunc)
    && (LastClass(lost).Some? ==> LastClass(lost) == s.enclosingClass)
    && (Count(lost, CallScope) > 0 ==> s.insideCall)
    && (Count(lost, ImportScope) > 0 ==> s.insideImport)
    && Count(lost, LoopScope) == 0
    && Count(lost, BranchScope) == 0
  }

  /** The walk state is the ancestors' state if and only if the lost scopes are harmless. */
  lemma StateIsAncestorsIff(ctx: Context, root: Node, p: Path)
    requires ValidPath(root, p)
    ensures StateAt(ctx, root, p) == AncestorState(ctx, root, p) <==> Harmless(StateAt(ctx, root, p), Lost(ctx, root, p))
  {
    PastTheCap(ctx, root, p);
    SameIffHarmless(StateAt(ctx, root, p), Lost(ctx, root, p), AncestorState(ctx, root, p));
  }

  lemma SameIffHarmless(s: Derived, lost: seq<Scope>, d: Derived)
    requires Extends(s, lost, d)
    ensures s == d <==> Harmless(s, lost)
  {
  }

  /** However many scopes are open, the state never claims a call that is not there. */
  lemma InsideCallSound(ctx: Context, root: Node, p: Path)
    requires ValidPath(root, p) && StateAt(ctx, root, p).insideCall
    ensures CallWithin(ctx, root, p, |p|)
  {
    PastTheCap(ctx, root, p);
    AncestorStateMeaning(ctx, root, p);
    var k :| k in LevelsWhere(root, p, (n: Node) => n.kind in ctx.callTypes);
    assert CallAt(ctx, root, p, k);
  }

  // ----- trees past the cap -----

  /** n nodes of one kind, each the only child of the one before, around an inner tree. */
  function Nest(kind: string, n: nat, inner: Node): Node {
    if n == 0 then inner else Node(kind, true, 0, 0, [Nest(kind, n - 1, inner)])
  }

  function Zeros(n: nat): (p: Path)
    ensures |p| == n && forall i | 0 <= i < n :: p[i] == 0
  {
    if n == 0 then [] else Zeros(n - 1) + [0]
  }

  lemma {:induction false} NestPath(kind: string, n: nat, inner: Node, k: nat)
    requires k <= n
    ensures ValidPath(Nest(kind, n, inner), Zeros(k)) && At(Nest(kind, n, inner), Zeros(k)) == Nest(kind, n - k, inner)
  {
    if k > 0 {
      NestPath(kind, n, inner, k - 1);
      ChildPath(Nest(kind, n, inner), Zeros(k - 1), 0);
    }
  }

  /** A kind that is a loop and nothing else. */
  ghost predicate OnlyLoop(ctx: Context, kind: string) {
    && kind in ctx.loopTypes && kind !in ctx.functionTypes && kind !in ctx.classTypes
    && kind !in ctx.callTypes && kind !in ctx.importTypes && kind != "impl_item"
  }

  /** Position p lies below nodes that are all loops and nothing else. */
  ghost predicate BelowLoops(ctx: Context, root: Node, p: Path)
    requires ValidPath(root, p)
    decreases |p|
  {
    if p == [] then true
    else
      ParentPath(root, p);
      var n := At(root, Tree.Parent(p));
      n.named && OnlyLoop(ctx, n.kind) && BelowLoops(ctx, root, Tree.Parent(p))
  }

  ghost predicate AllLoops(scopes: seq<Scope>) {
    forall i | 0 <= i < |scopes| :: scopes[i].Loop?
  }

  lemma {:induction false} LoopsOpen(ctx: Context, root: Node, p: Path)
    requires ValidPath(root, p) && BelowLoops(ctx, root, p)
    ensures |AllOpened(ctx, root, p)| == |p| && AllLoops(AllOpened(ctx, root, p))
    decreases |p|
  {
    if p != [] {
      ParentPath(root, p);
      var r := Tree.Parent(p);
      LoopsOpen(ctx, root, r);
      OneLoop(ctx, At(root, r), r, AncestorState(ctx, root, r).enclosingClass);
    }
  }

  lemma OneLoop(ctx: Context, n: Node, p: Path, enclosingClass: Option<string>)
    requires OnlyLoop(ctx, n.kind) && n.named
    ensures Opens(ctx, n, p, enclosingClass) == [Loop(|p|)]
  {
  }

  lemma {:induction false} LoopsMean(moduleQn: string, scopes: seq<Scope>)
    requires AllLoops(scopes)
    ensures Derive(moduleQn, scopes) == Derived(moduleQn, None, false, false, |scopes|, 0)
  {
    if scopes != [] {
      LoopsMean(moduleQn, scopes[..|scopes| - 1]);
    }
  }

  lemma {:induction false} NestBelowLoops(ctx: Context, kind: string, n: nat, inner: Node, k: nat)
    requires OnlyLoop(ctx, kind) && k <= n
    ensures ValidPath(Nest(kind, n, inner), Zeros(k)) && BelowLoops(ctx, Nest(kind, n, inner), Zeros(k))
  {
    NestPath(kind, n, inner, k);
    if k > 0 {
      NestBelowLoops(ctx, kind, n, inner, k - 1);
      NestPath(kind, n, inner, k - 1);
      assert Tree.Parent(Zeros(k)) == Zeros(k - 1);
    }
  }

  /** Under n nested loops the ancestors' state counts n, the walk state at most 64. */
  lemma NestIsCapped(ctx: Context, kind: string, n: nat, inner: Node)
    requires OnlyLoop(ctx, kind)
    ensures ValidPath(Nest(kind, n, inner), Zeros(n))
    ensures AncestorState(ctx, Nest(kind, n, inner), Zeros(n)) == Derived(ctx.moduleQn, None, false, false, n, 0)
    ensures StateAt(ctx, Nest(kind, n, inner), Zeros(n)) ==
            Derived(ctx.moduleQn, None, false, false, if n <= 64 then n else 64, 0)
  {
    var root := Nest(kind, n, inner);
    NestBelowLoops(ctx, kind, n, inner, n);
    LoopsOpen(ctx, root, Zeros(n));
    FirstScopesTrue(ctx, root, Zeros(n));
    AllOpenedMeans(ctx, root, Zeros(n));
    LoopsMean(ctx.moduleQn, AllOpened(ctx, root, Zeros(n)));
    LoopsMean(ctx.moduleQn, Cap(AllOpened(ctx, root, Zeros(n))));
  }

  /** Inside a named function below 64 loops or more, the walk state still names the module. */
  lemma FunctionPastTheCap(ctx: Context, kind: string, n: nat, inner: Node, name: string)
    requires OnlyLoop(ctx, kind) && n >= MAX_SCOPES
    requires inner.kind in ctx.functionTypes && inner.children != [] && ctx.funcName(Zeros(n)) == Some(name)
    ensures ValidPath(Nest(kind, n, inner), Zeros(n + 1))
    ensures AncestorState(ctx, Nest(kind, n, inner), Zeros(n + 1)).enclosingFunc == ctx.fqn(name)
    ensures StateAt(ctx, Nest(kind, n, inner), Zeros(n + 1)).enclosingFunc == ctx.moduleQn
  {
    var root, p := Nest(kind, n, inner), Zeros(n + 1);
    NestIsCapped(ctx, kind, n, inner);
    NestPath(kind, n, inner, n);
    ChildPath(root, Zeros(n), 0);
    assert Tree.Parent(p) == Zeros(n);
    NestBelowLoops(ctx, kind, n, inner, n);
    LoopsOpen(ctx, root, Zeros(n));
    FirstScopesTrue(ctx, root, p);
    var loops := AllOpened(ctx, root, Zeros(n));
    CutToLoops(loops, Opens(ctx, inner, Zeros(n), AncestorState(ctx, root, Zeros(n)).enclosingClass));
    LoopsMean(ctx.moduleQn, Cap(AllOpened(ctx, root, p)));
  }

  lemma CutToLoops(loops: seq<Scope>, more: seq<Scope>)
    requires AllLoops(loops) && |loops| >= MAX_SCOPES
    ensures AllLoops(Cap(loops + more))
  {
  }
}

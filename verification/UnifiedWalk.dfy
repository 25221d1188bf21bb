/**
 The unified cursor walk, `cbm_extract_unified`: one pass over the tree that keeps a capped
 scope stack instead of climbing parents, and the proof that at every node the stack and
 everything derived from it describe that node's ancestors.
 */
module UnifiedWalk {
  import opened Prelude
  import opened Tree
  import opened Scopes

  // ----- what a node opens -----

  /**
   The file being extracted: the node-type tables of its language (any tables will do), and the
   names found in its source text by position.
   */
  datatype Context = Context(functionTypes: seq<string>, classTypes: seq<string>, callTypes: seq<string>,
                             importTypes: seq<string>, branchingTypes: seq<string>,
                             loopTypes: seq<string>, declarationTypes: seq<string>,
                             rust: bool, wolfram: bool, moduleQn: string, fqn: string -> string,
                             funcName: Path -> Option<string>, className: Path -> Option<string>,
                             implType: Path -> Option<string>)

  /** Only named nodes are loops: anonymous keyword tokens share the type names. */
  predicate IsLoop(ctx: Context, n: Node) {
    n.named && n.kind in ctx.loopTypes
  }

  /** `is_export_of_declaration` */
  predicate IsExportOfDeclaration(ctx: Context, n: Node) {
    n.kind == "export_statement" && exists i :: 0 <= i < |n.children| && n.children[i].kind in ctx.declarationTypes
  }

  predicate IsCall(ctx: Context, n: Node) {
    n.kind in ctx.callTypes
  }

  predicate IsImport(ctx: Context, n: Node) {
    n.kind in ctx.importTypes && !IsExportOfDeclaration(ctx, n)
  }

  /** A loop is never also counted as a branch. */
  predicate IsBranch(ctx: Context, n: Node) {
    !IsLoop(ctx, n) && n.kind in ctx.branchingTypes
  }

  /** `compute_func_qn`: methods are qualified by the enclosing class, except in Wolfram. */
  function FuncQn(ctx: Context, p: Path, enclosingClass: Option<string>): Option<string> {
    match ctx.funcName(p)
    case None => None
    case Some(name) =>
      if ctx.wolfram || enclosingClass.None? then Some(ctx.fqn(name))
      else Some(enclosingClass.value + "." + name)
  }

  /** The definition scope a node opens, if any: a function, a class or a Rust impl block. */
  function OpensDefinition(ctx: Context, n: Node, p: Path, enclosingClass: Option<string>): Option<Scope> {
    if n.kind in ctx.functionTypes then
      match FuncQn(ctx, p, enclosingClass)
      case None => None
      case Some(qn) => Some(Func(|p|, qn))
    else if n.kind in ctx.classTypes then
      match ctx.className(p)
      case None => None
      case Some(name) => Some(Class(|p|, ctx.fqn(name)))
    else if ctx.rust && n.kind == "impl_item" then
      match ctx.implType(p)
      case None => None
      case Some(name) => Some(Class(|p|, ctx.fqn(name)))
    else None
  }

  function OpensCall(ctx: Context, n: Node, p: Path): Option<Scope> {
    if IsCall(ctx, n) then Some(Call(|p|)) else None
  }

  function OpensImport(ctx: Context, n: Node, p: Path): Option<Scope> {
    if IsImport(ctx, n) then Some(Import(|p|)) else None
  }

  function OpensNesting(ctx: Context, n: Node, p: Path): Option<Scope> {
    if IsLoop(ctx, n) then Some(Loop(|p|)) else if IsBranch(ctx, n) then Some(Branch(|p|)) else None
  }

  /** Every scope a node opens for its descendants, in the order they are pushed. */
  function Opens(ctx: Context, n: Node, p: Path, enclosingClass: Option<string>): (r: seq<Scope>)
    ensures forall i | 0 <= i < |r| :: r[i].depth == |p|
  {
    Segment(OpensDefinition(ctx, n, p, enclosingClass)) + Segment(OpensCall(ctx, n, p)) +
    Segment(OpensImport(ctx, n, p)) + Segment(OpensNesting(ctx, n, p))
  }

  /** Which push a scope comes from: definitions first, then calls, imports, loops and branches. */
  function Rank(s: Scope): nat {
    match s
    case Func(_, _) => 0
    case Class(_, _) => 0
    case Call(_) => 1
    case Import(_) => 2
    case Loop(_) => 3
    case Branch(_) => 3
  }

  ghost predicate RankOrder(r: seq<Scope>) {
    forall i, j | 0 <= i < j < |r| :: Rank(r[i]) < Rank(r[j])
  }

  lemma FourSegments(a: Option<Scope>, b: Option<Scope>, c: Option<Scope>, d: Option<Scope>, s: Scope)
    requires a.Some? ==> Rank(a.value) == 0
    requires b.Some? ==> Rank(b.value) == 1
    requires c.Some? ==> Rank(c.value) == 2
    requires d.Some? ==> Rank(d.value) == 3
    ensures RankOrder(Segment(a) + Segment(b) + Segment(c) + Segment(d))
    ensures s in Segment(a) + Segment(b) + Segment(c) + Segment(d) <==>
            a == Some(s) || b == Some(s) || c == Some(s) || d == Some(s)
  {
  }

  /** A node opens at most one scope of each kind, in this order, and those its node types call for. */
  lemma OpensInOrder(ctx: Context, n: Node, p: Path, enclosingClass: Option<string>, s: Scope)
    ensures RankOrder(Opens(ctx, n, p, enclosingClass))
    ensures s in Opens(ctx, n, p, enclosingClass) <==>
            match s
            case Call(depth) => depth == |p| && n.kind in ctx.callTypes
            case Import(depth) => depth == |p| && n.kind in ctx.importTypes && !IsExportOfDeclaration(ctx, n)
            case Loop(depth) => depth == |p| && n.named && n.kind in ctx.loopTypes
            case Branch(depth) => depth == |p| && !(n.named && n.kind in ctx.loopTypes) && n.kind in ctx.branchingTypes
            case _ => OpensDefinition(ctx, n, p, enclosingClass) == Some(s)
  {
    FourSegments(OpensDefinition(ctx, n, p, enclosingClass), OpensCall(ctx, n, p), OpensImport(ctx, n, p), OpensNesting(ctx, n, p), s);
  }

  // ----- what the ancestors of a position have opened -----

  /** The scopes opened by the proper ancestors of p, outermost first, no cap. */
  ghost function Opened(ctx: Context, root: Node, p: Path): (r: seq<Scope>)
    requires ValidPath(root, p)
    ensures forall i | 0 <= i < |r| :: r[i].depth < |p|
    decreases |p|, 0
  {
    if p == [] then []
    else
      ParentPath(root, p);
      Opened(ctx, root, Parent(p)) + OpenedAt(ctx, root, Parent(p))
  }

  /** The scopes opened by the node at p itself. */
  ghost function OpenedAt(ctx: Context, root: Node, p: Path): seq<Scope>
    requires ValidPath(root, p)
    decreases |p|, 2
  {
    Opens(ctx, At(root, p), p, StateAt(ctx, root, p).enclosingClass)
  }

  /** The walk state at p: derived from the first 64 scopes opened above it. */
  ghost function StateAt(ctx: Context, root: Node, p: Path): Derived
    requires ValidPath(root, p)
    decreases |p|, 1
  {
    Derive(ctx.moduleQn, Cap(Opened(ctx, root, p)))
  }

  // ----- the walk -----

  /** What the handlers are given at one node. */
  datatype Visit = Visit(path: Path, depth: nat, state: Derived)

  /** `full` begins with the scopes open at p; the rest is left over from where the walk has been. */
  ghost predicate OpenAt(ctx: Context, root: Node, p: Path, full: seq<Scope>)
    requires ValidPath(root, p)
  {
    && Opened(ctx, root, p) <= full
    && forall i | |Opened(ctx, root, p)| <= i < |full| :: full[i].depth >= |p|
  }

  /** Popping to the depth of p leaves exactly the first 64 scopes opened above p. */
  lemma PopToPosition(ctx: Context, root: Node, p: Path, full: seq<Scope>)
    requires ValidPath(root, p) && OpenAt(ctx, root, p, full)
    ensures Popped(Cap(full), |p|) == Cap(Opened(ctx, root, p))
  {
    var shallow := Opened(ctx, root, p);
    var deep := full[|shallow|..];
    assert full == shallow + deep;
    PopCapped(shallow, deep, |p|);
  }

  lemma OpenAtChild(ctx: Context, root: Node, p: Path)
    requires ValidPath(root, p) && ValidPath(root, p + [0])
    ensures OpenAt(ctx, root, p + [0], Opened(ctx, root, p) + OpenedAt(ctx, root, p))
  {
    assert Parent(p + [0]) == p;
  }

  lemma OpenAtSelf(ctx: Context, root: Node, p: Path)
    requires ValidPath(root, p)
    ensures OpenAt(ctx, root, p, Opened(ctx, root, p) + OpenedAt(ctx, root, p))
  {
  }

  lemma OpenAtSibling(ctx: Context, root: Node, p: Path, q: Path, full: seq<Scope>)
    requires ValidPath(root, p) && ValidPath(root, q) && p != [] && q != []
    requires Parent(p) == Parent(q) && OpenAt(ctx, root, p, full)
    ensures OpenAt(ctx, root, q, full)
  {
    assert Opened(ctx, root, p) == Opened(ctx, root, q);
  }

  lemma OpenAtParent(ctx: Context, root: Node, p: Path, full: seq<Scope>)
    requires ValidPath(root, p) && p != [] && OpenAt(ctx, root, p, full)
    ensures ValidPath(root, Parent(p)) && OpenAt(ctx, root, Parent(p), full)
  {
    ParentPath(root, p);
    var above, own := Opened(ctx, root, Parent(p)), OpenedAt(ctx, root, Parent(p));
    assert Opened(ctx, root, p) == above + own;
    forall i | |above| <= i < |full| ensures full[i].depth >= |p| - 1 {
      if i < |above + own| {
        assert full[i] == (above + own)[i] == own[i - |above|];
      }
    }
    assert above <= above + own;
  }

  /** `push_boundary_scopes` */
  method PushBoundary(state: WalkState, ctx: Context, n: Node, p: Path)
    requires state.Valid()
    modifies state`scopeTop, state.scopes
    ensures state.Valid()
    ensures state.Stack() == Cap(old(state.Stack()) + Opens(ctx, n, p, state.derived.enclosingClass))
  {
    var a, b := OpensDefinition(ctx, n, p, state.derived.enclosingClass), OpensCall(ctx, n, p);
    var c, d := OpensImport(ctx, n, p), OpensNesting(ctx, n, p);
    state.PushFour(a, b, c, d);
  }

  /** The inner `while (goto_parent)` loop: climb until some ancestor has a next sibling. */
  method Climb(cursor: Cursor, depth: nat, ghost ctx: Context, ghost full: seq<Scope>)
    returns (found: bool, depth': nat)
    requires cursor.Valid() && depth == |cursor.path| && OpenAt(ctx, cursor.root, cursor.path, full)
    requires cursor.path != [] ==> !ValidPath(cursor.root, Tree.Parent(cursor.path) + [Last(cursor.path) + 1])
    modifies cursor
    ensures cursor.Valid()
    ensures found ==> depth' == |cursor.path| && OpenAt(ctx, cursor.root, cursor.path, full)
    ensures found ==> old(After(cursor.root, cursor.path)) == From(cursor.root, cursor.path)
    ensures !found ==> old(After(cursor.root, cursor.path)) == []
  {
    found, depth' := false, depth;
    while true
      invariant cursor.Valid() && depth' == |cursor.path|
      invariant OpenAt(ctx, cursor.root, cursor.path, full)
      invariant After(cursor.root, cursor.path) == old(After(cursor.root, cursor.path))
      invariant cursor.path != [] ==> !ValidPath(cursor.root, Tree.Parent(cursor.path) + [Last(cursor.path) + 1])
      decreases |cursor.path|
    {
      ghost var p := cursor.path;
      var up := cursor.GotoParent();
      if !up {
        return;
      }
      depth' := depth' - 1;
      AfterLastSibling(cursor.root, p);
      OpenAtParent(ctx, cursor.root, p, full);
      ghost var q := cursor.path;
      var next := cursor.GotoNextSibling();
      if next {
        AfterSibling(cursor.root, q);
        OpenAtSibling(ctx, cursor.root, q, cursor.path, full);
        found := true;
        return;
      }
    }
  }

  /** Everything done at one node before the cursor moves. */
  method Visiting(cursor: Cursor, state: WalkState, ctx: Context, depth: nat, ghost full: seq<Scope>)
    returns (v: Visit, ghost full': seq<Scope>)
    requires cursor.Valid() && state.Valid() && depth == |cursor.path|
    requires OpenAt(ctx, cursor.root, cursor.path, full) && state.Stack() == Cap(full)
    modifies state, state.scopes
    ensures state.Valid() && state.scopes == old(state.scopes)
    ensures v == Visit(cursor.path, |cursor.path|, StateAt(ctx, cursor.root, cursor.path))
    ensures full' == Opened(ctx, cursor.root, cursor.path) + OpenedAt(ctx, cursor.root, cursor.path)
    ensures state.Stack() == Cap(full')
  {
    var node := cursor.CurrentNode();
    PopToPosition(ctx, cursor.root, cursor.path, full);
    state.PopExpired(depth);
    state.Recompute(ctx.moduleQn);
    v := Visit(cursor.path, depth, state.derived);
    full' := Opened(ctx, cursor.root, cursor.path) + OpenedAt(ctx, cursor.root, cursor.path);
    CapTwice(Opened(ctx, cursor.root, cursor.path), OpenedAt(ctx, cursor.root, cursor.path));
    PushBoundary(state, ctx, node, cursor.path);
  }

  /** One move of the cursor to the next position in pre-order, if there is one. */
  method MoveOn(cursor: Cursor, depth: nat, ghost ctx: Context) returns (more: bool, depth': nat)
    requires cursor.Valid() && depth == |cursor.path|
    modifies cursor
    ensures cursor.Valid()
    ensures var full := old(Opened(ctx, cursor.root, cursor.path) + OpenedAt(ctx, cursor.root, cursor.path));
            more ==> depth' == |cursor.path| && OpenAt(ctx, cursor.root, cursor.path, full)
    ensures old(From(cursor.root, cursor.path)) ==
            [old(cursor.path)] + if more then From(cursor.root, cursor.path) else []
  {
    ghost var p, root := cursor.path, cursor.root;
    ghost var full := Opened(ctx, root, p) + OpenedAt(ctx, root, p);
    more, depth' := true, depth;
    var down := cursor.GotoFirstChild();
    if down {
      FromFirstChild(root, p);
      OpenAtChild(ctx, root, p);
      depth' := depth + 1;
      return;
    }
    FromLeaf(root, p);
    OpenAtSelf(ctx, root, p);
    var across := cursor.GotoNextSibling();
    if across {
      AfterSibling(root, p);
      OpenAtSibling(ctx, root, p, cursor.path, full);
      assert cursor.path == Tree.Parent(p) + [Last(p) + 1];
      return;
    }
    more, depth' := Climb(cursor, depth, ctx, full);
  }

  /** The visits made so far are exactly the positions ps, each with its true depth and state. */
  ghost predicate Faithful(ctx: Context, root: Node, ps: seq<Path>, visits: seq<Visit>) {
    && |visits| == |ps|
    && forall k | 0 <= k < |ps| :: ValidPath(root, ps[k]) && visits[k] == Visit(ps[k], |ps[k]|, StateAt(ctx, root, ps[k]))
  }

  lemma OneMore(ctx: Context, root: Node, ps: seq<Path>, visits: seq<Visit>, p: Path, v: Visit)
    requires Faithful(ctx, root, ps, visits) && ValidPath(root, p)
    requires v == Visit(p, |p|, StateAt(ctx, root, p))
    ensures Faithful(ctx, root, ps + [p], visits + [v])
  {
  }

  lemma Shift<X>(s: seq<X>, x: X, t: seq<X>)
    ensures s + ([x] + t) == s + [x] + t
  {
  }

  /** One round of the walk's loop. */
  method Round(cursor: Cursor, state: WalkState, ctx: Context, depth: nat, ghost full: seq<Scope>)
    returns (v: Visit, more: bool, depth': nat, ghost full': seq<Scope>)
    requires cursor.Valid() && state.Valid() && depth == |cursor.path|
    requires OpenAt(ctx, cursor.root, cursor.path, full) && state.Stack() == Cap(full)
    modifies cursor, state, state.scopes
    ensures cursor.Valid() && state.Valid() && state.scopes == old(state.scopes)
    ensures v == old(Visit(cursor.path, |cursor.path|, StateAt(ctx, cursor.root, cursor.path)))
    ensures old(From(cursor.root, cursor.path)) ==
            [old(cursor.path)] + if more then From(cursor.root, cursor.path) else []
    ensures more ==> depth' == |cursor.path| && OpenAt(ctx, cursor.root, cursor.path, full') && state.Stack() == Cap(full')
  {
    v, full' := Visiting(cursor, state, ctx, depth, full);
    more, depth' := MoveOn(cursor, depth, ctx);
  }

  /**
   `cbm_extract_unified`: the handlers see every position of the tree once, in pre-order, with
   the true depth and with the state that the first 64 scopes of its ancestors determine.
   */
  method ExtractUnified(ctx: Context, root: Node) returns (visits: seq<Visit>)
    ensures Faithful(ctx, root, Positions(root, []), visits)
  {
    var cursor := new Cursor(root);
    var state := new WalkState();
    var depth, more := 0, true;
    visits := [];
    ghost var full: seq<Scope> := [];
    ghost var all, seen := Positions(root, []), [];
    assert From(root, []) == all + [];
    while more
      invariant cursor.Valid() && cursor.root == root && state.Valid() && fresh(state.scopes)
      invariant more ==> depth == |cursor.path| && OpenAt(ctx, root, cursor.path, full) && state.Stack() == Cap(full)
      invariant all == seen + if more then From(root, cursor.path) else []
      invariant Faithful(ctx, root, seen, visits)
      decreases |all| - |seen|
    {
      var v;
      ghost var p := cursor.path;
      v, more, depth, full := Round(cursor, state, ctx, depth, full);
      Shift(seen, p, if more then From(root, cursor.path) else []);
      OneMore(ctx, root, seen, visits, p, v);
      visits, seen := visits + [v], seen + [p];
    }
    assert all == seen;
  }

  /** The cursor walk and the node-stack walk see the same nodes in the same order, each once. */
  lemma VisitsArePreOrder(ctx: Context, root: Node, visits: seq<Visit>)
    requires Faithful(ctx, root, Positions(root, []), visits)
    ensures |visits| == |PreOrder(root)|
    ensures forall k | 0 <= k < |visits| :: ValidPath(root, visits[k].path) && At(root, visits[k].path) == PreOrder(root)[k]
    ensures forall i, j | 0 <= i < j < |visits| :: visits[i].path != visits[j].path
    ensures forall q | ValidPath(root, q) :: exists k :: 0 <= k < |visits| && visits[k].path == q
  {
    var ps := Positions(root, []);
    NodesAtPositions(root, root, []);
    PositionsOnce(root, []);
    forall q | ValidPath(root, q) ensures exists k :: 0 <= k < |visits| && visits[k].path == q {
      assert q[0..] == q;
      PositionsExact(root, [], q);
      var k :| 0 <= k < |ps| && ps[k] == q;
      assert visits[k].path == q;
    }
  }
}

/**
 `resolve_reexports`: names flow along star imports, in place, for at most eight rounds. The loops
 are proved equal to functions, a run to a number of full rounds; what a module gains is always owned
 by a module it reaches, behind its own entries and never twice. `Arrivals` says exactly which names
 the rounds bring to a module.
 */
module Reexports {
  import opened Prelude
  import opened Stubs

  type Modules = map<string, ModuleStubs>
  type Stars = map<string, seq<string>>

  /** The two lists of a module are treated alike. */
  function List(ms: ModuleStubs, isClass: bool): seq<Entry> {
    if isClass then ms.classes else ms.functions
  }

  predicate HasName(list: seq<Entry>, name: string) {
    exists i :: 0 <= i < |list| && list[i].shortName == name
  }

  /** A re-exported entry carries the importing module's name. */
  function Rename(e: Entry, qn: string): Entry {
    Entry(qn + "." + e.shortName, e.shortName, e.detail)
  }

  // ----- copying -----

  /** The entries of src whose names dst does not have yet, appended one by one. */
  function CopyMissing(dst: seq<Entry>, src: seq<Entry>, qn: string): seq<Entry>
    decreases |src|
  {
    if src == [] then dst
    else CopyMissing(if HasName(dst, src[0].shortName) then dst else dst + [Rename(src[0], qn)], src[1..], qn)
  }

  function Merge(a: ModuleStubs, b: ModuleStubs, qn: string): ModuleStubs {
    ModuleStubs(CopyMissing(a.classes, b.classes, qn), CopyMissing(a.functions, b.functions, qn))
  }

  lemma MergeList(a: ModuleStubs, b: ModuleStubs, qn: string, isClass: bool)
    ensures List(Merge(a, b, qn), isClass) == CopyMissing(List(a, isClass), List(b, isClass), qn)
  {
  }

  ghost predicate FreshAt(list: seq<Entry>, i: nat)
    requires i < |list|
  {
    !HasName(list[..i], list[i].shortName)
  }

  /** `list` is `own` followed by entries whose names are all new when they come. */
  ghost predicate OwnThenFresh(own: seq<Entry>, list: seq<Entry>) {
    own <= list && forall i | |own| <= i < |list| :: FreshAt(list, i)
  }

  lemma FreshSnoc(own: seq<Entry>, list: seq<Entry>, e: Entry)
    requires OwnThenFresh(own, list) && !HasName(list, e.shortName)
    ensures OwnThenFresh(own, list + [e])
  {
    var list' := list + [e];
    forall i | |own| <= i < |list'| ensures FreshAt(list', i) {
      if i < |list| {
        assert FreshAt(list, i) && list'[..i] == list[..i];
      } else {
        assert list'[..i] == list;
      }
    }
  }

  /** Copying keeps what was there as a prefix and adds no name twice. */
  lemma {:induction false} CopyKeepsOwn(own: seq<Entry>, dst: seq<Entry>, src: seq<Entry>, qn: string)
    requires OwnThenFresh(own, dst)
    ensures OwnThenFresh(own, CopyMissing(dst, src, qn))
    decreases |src|
  {
    if src != [] {
      if HasName(dst, src[0].shortName) {
        CopyKeepsOwn(own, dst, src[1..], qn);
      } else {
        FreshSnoc(own, dst, Rename(src[0], qn));
        CopyKeepsOwn(own, dst + [Rename(src[0], qn)], src[1..], qn);
      }
    }
  }

  /** Afterwards dst has exactly the names of both lists. */
  lemma {:induction false} CopyNames(dst: seq<Entry>, src: seq<Entry>, qn: string, name: string)
    ensures HasName(CopyMissing(dst, src, qn), name) <==> HasName(dst, name) || HasName(src, name)
    decreases |src|
  {
    if src != [] {
      var dst' := if HasName(dst, src[0].shortName) then dst else dst + [Rename(src[0], qn)];
      CopyNames(dst', src[1..], qn, name);
      SplitName(src, name);
      if !HasName(dst, src[0].shortName) {
        SnocName(dst, Rename(src[0], qn), name);
      }
    }
  }

  lemma SplitName(list: seq<Entry>, name: string)
    requires list != []
    ensures HasName(list, name) <==> list[0].shortName == name || HasName(list[1..], name)
  {
    if HasName(list[1..], name) {
      var i :| 0 <= i < |list[1..]| && list[1..][i].shortName == name;
      assert list[i + 1].shortName == name;
    }
    if HasName(list, name) && list[0].shortName != name {
      var i :| 0 <= i < |list| && list[i].shortName == name;
      assert list[1..][i - 1].shortName == name;
    }
  }

  lemma SnocName(list: seq<Entry>, e: Entry, name: string)
    ensures HasName(list + [e], name) <==> HasName(list, name) || e.shortName == name
  {
    if HasName(list, name) {
      var i :| 0 <= i < |list| && list[i].shortName == name;
      assert (list + [e])[i].shortName == name;
    }
    if e.shortName == name {
      assert (list + [e])[|list|].shortName == name;
    }
  }

  /** e is a copy of o in all but the qualified name. */
  ghost predicate Carries(e: Entry, o: Entry) {
    e.shortName == o.shortName && e.detail == o.detail
  }

  /** Place j of src is the first with its name, and e is its copy under the name of module qn. */
  ghost predicate CopiedFrom(e: Entry, src: seq<Entry>, qn: string, j: nat) {
    && j < |src| && !HasName(src[..j], src[j].shortName) && Carries(e, src[j])
    && e.qualifiedName == qn + "." + src[j].shortName
  }

  lemma CopiedFromLater(e: Entry, src: seq<Entry>, qn: string, j: nat)
    requires src != [] && CopiedFrom(e, src[1..], qn, j) && src[0].shortName != e.shortName
    ensures CopiedFrom(e, src, qn, j + 1)
  {
    assert src[..j + 1][1..] == src[1..][..j];
    SplitName(src[..j + 1], src[j + 1].shortName);
  }

  /**
   What was there stays, and every entry behind it is a copy of the first entry of src with its name,
   qualified by the importing module.
   */
  lemma {:induction false} CopyEntries(dst: seq<Entry>, src: seq<Entry>, qn: string, i: nat)
    requires |dst| <= i < |CopyMissing(dst, src, qn)|
    ensures dst <= CopyMissing(dst, src, qn) && !HasName(dst, CopyMissing(dst, src, qn)[i].shortName)
    ensures exists j: nat :: CopiedFrom(CopyMissing(dst, src, qn)[i], src, qn, j)
    decreases |src|
  {
    var list := CopyMissing(dst, src, qn);
    if HasName(dst, src[0].shortName) {
      CopyEntries(dst, src[1..], qn, i);
      var j: nat :| CopiedFrom(list[i], src[1..], qn, j);
      CopiedFromLater(list[i], src, qn, j);
    } else {
      CopyPrefix(dst + [Rename(src[0], qn)], src[1..], qn);
      assert list[|dst|] == Rename(src[0], qn);
      if i == |dst| {
        assert CopiedFrom(list[i], src, qn, 0);
      } else {
        CopyEntries(dst + [Rename(src[0], qn)], src[1..], qn, i);
        var j: nat :| CopiedFrom(list[i], src[1..], qn, j);
        SnocName(dst, Rename(src[0], qn), list[i].shortName);
        CopiedFromLater(list[i], src, qn, j);
      }
    }
  }

  lemma {:induction false} CopyPrefix(dst: seq<Entry>, src: seq<Entry>, qn: string)
    ensures dst <= CopyMissing(dst, src, qn)
    decreases |src|
  {
    if src != [] {
      CopyPrefix(if HasName(dst, src[0].shortName) then dst else dst + [Rename(src[0], qn)], src[1..], qn);
    }
  }

  /** The copying loop, with its set of names already present. */
  method Copy(dst: seq<Entry>, src: seq<Entry>, qn: string) returns (dst': seq<Entry>, changed: bool)
    ensures dst' == CopyMissing(dst, src, qn) && (changed <==> dst' != dst)
  {
    dst', changed := dst, false;
    var existing := set i | 0 <= i < |dst| :: dst[i].shortName;
    for i := 0 to |src|
      invariant forall name :: name in existing <==> HasName(dst', name)
      invariant dst <= dst' && (changed <==> |dst| < |dst'|)
      invariant CopyMissing(dst', src[i..], qn) == CopyMissing(dst, src, qn)
    {
      assert src[i..][1..] == src[i + 1..];
      if src[i].shortName !in existing {
        ghost var before := dst';
        dst' := dst' + [Rename(src[i], qn)];
        forall name ensures HasName(dst', name) <==> HasName(before, name) || name == src[i].shortName {
          SnocName(before, Rename(src[i], qn), name);
        }
        existing := existing + {src[i].shortName};
        changed := true;
      }
    }
  }

  // ----- star imports as a graph -----

  /** m star-imports u, and u is a collected module. */
  ghost predicate Edge(own: Modules, stars: Stars, m: string, u: string) {
    m in own && m in stars && u in stars[m] && u in own
  }

  /** t is reached from m by at most k star imports. */
  ghost predicate Within(own: Modules, stars: Stars, m: string, t: string, k: nat)
    decreases k
  {
    m in own && t in own && (m == t || (k > 0 && exists u :: Edge(own, stars, m, u) && Within(own, stars, u, t, k - 1)))
  }

  ghost predicate Reaches(own: Modules, stars: Stars, m: string, t: string) {
    m in own && t in own && exists k: nat :: Within(own, stars, m, t, k)
  }

  lemma ReachesSelf(own: Modules, stars: Stars, m: string)
    requires m in own
    ensures Reaches(own, stars, m, m)
  {
    assert Within(own, stars, m, m, 0);
  }

  lemma ReachesOn(own: Modules, stars: Stars, m: string, u: string, t: string)
    requires Edge(own, stars, m, u) && Reaches(own, stars, u, t)
    ensures Reaches(own, stars, m, t)
  {
    var k: nat :| Within(own, stars, u, t, k);
    assert Within(own, stars, m, t, k + 1);
  }

  // ----- what a module may hold -----

  /** Some module that m reaches owns an entry of this short name and detail. */
  ghost predicate InReach(own: Modules, stars: Stars, m: string, isClass: bool, e: Entry) {
    exists t, o :: Reaches(own, stars, m, t) && o in List(own[t], isClass) && Carries(e, o)
  }

  /** An entry past the own ones: qualified by m, and owned by a module that m reaches. */
  ghost predicate GainedAt(own: Modules, stars: Stars, m: string, isClass: bool, list: seq<Entry>, i: nat)
    requires i < |list|
  {
    list[i].qualifiedName == m + "." + list[i].shortName && InReach(own, stars, m, isClass, list[i])
  }

  /** m's own entries, then gained ones. */
  ghost predicate ListOk(own: Modules, stars: Stars, m: string, isClass: bool, list: seq<Entry>)
    requires m in own
  {
    && List(own[m], isClass) <= list
    && forall i | |List(own[m], isClass)| <= i < |list| :: GainedAt(own, stars, m, isClass, list, i)
  }

  ghost predicate SoundAt(own: Modules, stars: Stars, ms: ModuleStubs, m: string)
    requires m in own
  {
    ListOk(own, stars, m, true, ms.classes) && ListOk(own, stars, m, false, ms.functions)
  }

  lemma EntryInReach(own: Modules, stars: Stars, u: string, isClass: bool, list: seq<Entry>, j: nat)
    requires u in own && ListOk(own, stars, u, isClass, list) && j < |list|
    ensures InReach(own, stars, u, isClass, list[j])
  {
    if j < |List(own[u], isClass)| {
      ReachesSelf(own, stars, u);
      assert list[j] == List(own[u], isClass)[j];
      assert Carries(list[j], list[j]);
    } else {
      assert GainedAt(own, stars, u, isClass, list, j);
    }
  }

  lemma InReachOn(own: Modules, stars: Stars, m: string, u: string, isClass: bool, o: Entry, e: Entry)
    requires Edge(own, stars, m, u) && InReach(own, stars, u, isClass, o) && Carries(e, o)
    ensures InReach(own, stars, m, isClass, e)
  {
    var t, o' :| Reaches(own, stars, u, t) && o' in List(own[t], isClass) && Carries(o, o');
    ReachesOn(own, stars, m, u, t);
    assert Carries(e, o');
  }

  lemma CopySound(own: Modules, stars: Stars, m: string, u: string, isClass: bool, dst: seq<Entry>, src: seq<Entry>)
    requires Edge(own, stars, m, u) && ListOk(own, stars, m, isClass, dst) && ListOk(own, stars, u, isClass, src)
    ensures ListOk(own, stars, m, isClass, CopyMissing(dst, src, m))
  {
    var list := CopyMissing(dst, src, m);
    CopyPrefix(dst, src, m);
    forall i | |List(own[m], isClass)| <= i < |list| ensures GainedAt(own, stars, m, isClass, list, i) {
      if i < |dst| {
        assert GainedAt(own, stars, m, isClass, dst, i);
      } else {
        CopyEntries(dst, src, m, i);
        var j: nat :| CopiedFrom(list[i], src, m, j);
        EntryInReach(own, stars, u, isClass, src, j);
        InReachOn(own, stars, m, u, isClass, src[j], list[i]);
      }
    }
  }

  lemma MergeSound(own: Modules, stars: Stars, a: ModuleStubs, b: ModuleStubs, m: string, u: string)
    requires Edge(own, stars, m, u) && SoundAt(own, stars, a, m) && SoundAt(own, stars, b, u)
    ensures SoundAt(own, stars, Merge(a, b, m), m)
  {
    CopySound(own, stars, m, u, true, a.classes, b.classes);
    CopySound(own, stars, m, u, false, a.functions, b.functions);
  }

  /**
   m's own entries come first; every other is qualified by m, is owned by a module that m reaches,
   and has a name that was new when it came.
   */
  ghost predicate ModuleOk(own: Modules, stars: Stars, mods: Modules, m: string)
    requires mods.Keys == own.Keys
  {
    m in own ==>
      && SoundAt(own, stars, mods[m], m)
      && OwnThenFresh(own[m].classes, mods[m].classes)
      && OwnThenFresh(own[m].functions, mods[m].functions)
  }

  ghost predicate Ok(own: Modules, stars: Stars, mods: Modules) {
    mods.Keys == own.Keys && forall m :: ModuleOk(own, stars, mods, m)
  }

  // ----- the rounds as functions -----

  /** The modules after m has taken over one star target. */
  function Taken(mods: Modules, m: string, target: string): (mods': Modules)
    ensures mods'.Keys == mods.Keys
  {
    if m in mods && target in mods then mods[m := Merge(mods[m], mods[target], m)] else mods
  }

  /** The modules after m has taken over its targets in order. */
  function TakenAll(mods: Modules, m: string, targets: seq<string>): (mods': Modules)
    ensures mods'.Keys == mods.Keys
  {
    if targets == [] then mods
    else Taken(TakenAll(mods, m, targets[..|targets| - 1]), m, targets[|targets| - 1])
  }

  /** The modules after the first i modules of a round. */
  function RoundTo(mods: Modules, stars: Stars, order: seq<string>, i: nat): (mods': Modules)
    requires i <= |order| && forall m | m in order :: m in stars
    ensures mods'.Keys == mods.Keys
  {
    if i == 0 then mods else TakenAll(RoundTo(mods, stars, order, i - 1), order[i - 1], stars[order[i - 1]])
  }

  /** The modules after r rounds. */
  function AfterRounds(own: Modules, stars: Stars, order: seq<string>, r: nat): (mods: Modules)
    requires forall m | m in order :: m in stars
    ensures mods.Keys == own.Keys
  {
    if r == 0 then own else RoundTo(AfterRounds(own, stars, order, r - 1), stars, order, |order|)
  }

  lemma TakenOk(own: Modules, stars: Stars, mods: Modules, m: string, u: string)
    requires Ok(own, stars, mods) && m in stars && u in stars[m]
    ensures Ok(own, stars, Taken(mods, m, u))
  {
    if m in mods && u in mods {
      var mods' := Taken(mods, m, u);
      forall x ensures ModuleOk(own, stars, mods', x) {
        assert ModuleOk(own, stars, mods, x);
        if x == m {
          assert ModuleOk(own, stars, mods, u);
          MergeSound(own, stars, mods[m], mods[u], m, u);
          CopyKeepsOwn(own[m].classes, mods[m].classes, mods[u].classes, m);
          CopyKeepsOwn(own[m].functions, mods[m].functions, mods[u].functions, m);
        }
      }
    }
  }

  lemma {:induction false} TakenAllOk(own: Modules, stars: Stars, mods: Modules, m: string, targets: seq<string>)
    requires Ok(own, stars, mods) && m in stars && forall u | u in targets :: u in stars[m]
    ensures Ok(own, stars, TakenAll(mods, m, targets))
  {
    if targets != [] {
      var n := |targets| - 1;
      TakenAllOk(own, stars, mods, m, targets[..n]);
      TakenOk(own, stars, TakenAll(mods, m, targets[..n]), m, targets[n]);
    }
  }

  lemma {:induction false} RoundToOk(own: Modules, stars: Stars, mods: Modules, order: seq<string>, i: nat)
    requires i <= |order| && (forall m | m in order :: m in stars) && Ok(own, stars, mods)
    ensures Ok(own, stars, RoundTo(mods, stars, order, i))
  {
    if i > 0 {
      RoundToOk(own, stars, mods, order, i - 1);
      TakenAllOk(own, stars, RoundTo(mods, stars, order, i - 1), order[i - 1], stars[order[i - 1]]);
    }
  }

  /** After any number of rounds every module is sound, starts with its own entries and has no name added twice. */
  lemma {:induction false} AfterRoundsOk(own: Modules, stars: Stars, order: seq<string>, r: nat)
    requires forall m | m in order :: m in stars
    ensures Ok(own, stars, AfterRounds(own, stars, order, r))
  {
    if r == 0 {
      forall m ensures ModuleOk(own, stars, own, m) {
      }
    } else {
      AfterRoundsOk(own, stars, order, r - 1);
      RoundToOk(own, stars, AfterRounds(own, stars, order, r - 1), order, |order|);
    }
  }

  // ----- which entry is taken -----

  /** The first entry of a name. */
  ghost function FirstNamed(list: seq<Entry>, name: string): (e: Option<Entry>)
    ensures e.Some? ==> e.value in list && e.value.shortName == name
  {
    if list == [] then None else if list[0].shortName == name then Some(list[0]) else FirstNamed(list[1..], name)
  }

  lemma {:induction false} FirstNamedSnoc(list: seq<Entry>, e: Entry, name: string)
    ensures FirstNamed(list + [e], name) ==
            if FirstNamed(list, name).Some? then FirstNamed(list, name)
            else if e.shortName == name then Some(e) else None
  {
    if list == [] {
      assert list + [e] == [e];
    } else {
      assert (list + [e])[1..] == list[1..] + [e];
      FirstNamedSnoc(list[1..], e, name);
    }
  }

  lemma {:induction false} FirstNamedFound(list: seq<Entry>, name: string)
    ensures HasName(list, name) <==> FirstNamed(list, name).Some?
  {
    if list != [] {
      SplitName(list, name);
      FirstNamedFound(list[1..], name);
    }
  }

  /** Copying never replaces an entry; a new name gets the detail of src's first entry of that name. */
  lemma {:induction false} CopyTakesFirst(dst: seq<Entry>, src: seq<Entry>, qn: string, name: string)
    ensures FirstNamed(CopyMissing(dst, src, qn), name) ==
            if FirstNamed(dst, name).Some? then FirstNamed(dst, name)
            else if FirstNamed(src, name).Some? then Some(Entry(qn + "." + name, name, FirstNamed(src, name).value.detail))
            else None
    decreases |src|
  {
    if src != [] {
      FirstNamedFound(dst, src[0].shortName);
      FirstNamedSnoc(dst, Rename(src[0], qn), name);
      CopyTakesFirst(if HasName(dst, src[0].shortName) then dst else dst + [Rename(src[0], qn)], src[1..], qn, name);
    }
  }

  /** What module m offers under a name, if it is there. */
  ghost function Lookup(mods: Modules, m: string, isClass: bool, name: string): Option<Entry> {
    if m in mods then FirstNamed(List(mods[m], isClass), name) else None
  }

  lemma TakenLookup(mods: Modules, m: string, target: string, isClass: bool, name: string)
    requires m in mods
    ensures Lookup(Taken(mods, m, target), m, isClass, name) ==
            if Lookup(mods, m, isClass, name).Some? then Lookup(mods, m, isClass, name)
            else if Lookup(mods, target, isClass, name).Some?
            then Some(Entry(m + "." + name, name, Lookup(mods, target, isClass, name).value.detail))
            else None
  {
    if target in mods {
      MergeList(mods[m], mods[target], m, isClass);
      CopyTakesFirst(List(mods[m], isClass), List(mods[target], isClass), m, name);
    }
  }

  /** Taking over changes m alone. */
  lemma {:induction false} OthersKept(mods: Modules, m: string, targets: seq<string>, x: string)
    requires x != m && x in mods
    ensures TakenAll(mods, m, targets)[x] == mods[x]
  {
    if targets != [] {
      OthersKept(mods, m, targets[..|targets| - 1], x);
    }
  }

  /** An entry that m has is kept ... */
  lemma {:induction false} OwnEntryKept(mods: Modules, m: string, targets: seq<string>, isClass: bool, name: string)
    requires Lookup(mods, m, isClass, name).Some?
    ensures Lookup(TakenAll(mods, m, targets), m, isClass, name) == Lookup(mods, m, isClass, name)
  {
    if targets != [] {
      var n := |targets| - 1;
      OwnEntryKept(mods, m, targets[..n], isClass, name);
      TakenLookup(TakenAll(mods, m, targets[..n]), m, targets[n], isClass, name);
    }
  }

  /** ... a name that no target offers is not gained ... */
  lemma {:induction false} NotOffered(mods: Modules, m: string, targets: seq<string>, isClass: bool, name: string)
    requires m in mods && Lookup(mods, m, isClass, name).None?
    requires forall i | 0 <= i < |targets| :: Lookup(mods, targets[i], isClass, name).None?
    ensures Lookup(TakenAll(mods, m, targets), m, isClass, name).None?
  {
    if targets != [] {
      var n := |targets| - 1;
      NotOffered(mods, m, targets[..n], isClass, name);
      TakenLookup(TakenAll(mods, m, targets[..n]), m, targets[n], isClass, name);
      if targets[n] != m && targets[n] in mods {
        OthersKept(mods, m, targets[..n], targets[n]);
      }
    }
  }

  /** ... and of several targets that offer a name the first in the order of the imports gives its entry. */
  lemma {:induction false} FirstTargetWins(mods: Modules, m: string, targets: seq<string>, j: nat, isClass: bool, name: string)
    requires m in mods && Lookup(mods, m, isClass, name).None?
    requires j < |targets| && Lookup(mods, targets[j], isClass, name).Some?
    requires forall i | 0 <= i < j :: Lookup(mods, targets[i], isClass, name).None?
    ensures Lookup(TakenAll(mods, m, targets), m, isClass, name) ==
            Some(Entry(m + "." + name, name, Lookup(mods, targets[j], isClass, name).value.detail))
  {
    var n := |targets| - 1;
    TakenLookup(TakenAll(mods, m, targets[..n]), m, targets[n], isClass, name);
    if j < n {
      FirstTargetWins(mods, m, targets[..n], j, isClass, name);
    } else {
      NotOffered(mods, m, targets[..n], isClass, name);
      OthersKept(mods, m, targets[..n], targets[n]);
    }
  }

  /** Once a round changes nothing, no later round does. */
  lemma {:induction false} StableRounds(own: Modules, stars: Stars, order: seq<string>, r: nat, r': nat)
    requires r <= r' && forall m | m in order :: m in stars
    requires var mods := AfterRounds(own, stars, order, r); RoundTo(mods, stars, order, |order|) == mods
    ensures AfterRounds(own, stars, order, r') == AfterRounds(own, stars, order, r)
  {
    if r < r' {
      StableRounds(own, stars, order, r, r' - 1);
    }
  }

  // ----- the loops -----

  ghost predicate LongerAt(a: Modules, b: Modules, m: string)
    requires a.Keys == b.Keys
  {
    m in a ==> a[m].classes <= b[m].classes && a[m].functions <= b[m].functions
  }

  /** Every list of b begins with a's. */
  ghost predicate Longer(a: Modules, b: Modules) {
    a.Keys == b.Keys && forall m :: LongerAt(a, b, m)
  }

  lemma TakenLonger(mods: Modules, m: string, target: string)
    ensures Longer(mods, Taken(mods, m, target))
  {
    if m in mods && target in mods {
      CopyKeepsOwn(mods[m].classes, mods[m].classes, mods[target].classes, m);
      CopyKeepsOwn(mods[m].functions, mods[m].functions, mods[target].functions, m);
    }
    forall x ensures LongerAt(mods, Taken(mods, m, target), x) {
    }
  }

  /** Lists that only grow return to where they were only by never having grown. */
  lemma LongerOn(a: Modules, b: Modules, c: Modules)
    requires Longer(a, b) && Longer(b, c)
    ensures Longer(a, c) && (a == c <==> a == b == c)
  {
    forall m ensures LongerAt(a, c, m) {
      assert LongerAt(a, b, m) && LongerAt(b, c, m);
    }
    if a == c {
      forall m | m in a ensures a[m] == b[m] {
        assert LongerAt(a, b, m) && LongerAt(b, c, m);
      }
    }
  }

  /** One star import of m. */
  method TakeOver(mods: Modules, m: string, target: string) returns (mods': Modules, changed: bool)
    requires m in mods
    ensures mods' == Taken(mods, m, target) && (changed <==> mods' != mods)
  {
    mods', changed := mods, false;
    if target in mods {
      var classes, functions, c1, c2;
      classes, c1 := Copy(mods[m].classes, mods[target].classes, m);
      functions, c2 := Copy(mods[m].functions, mods[target].functions, m);
      mods', changed := mods[m := ModuleStubs(classes, functions)], c1 || c2;
      if !changed {
        assert mods[m := mods[m]] == mods;
      } else {
        assert mods'[m] != mods[m];
      }
    }
  }

  /** All star imports of one module. */
  method TakeOverAll(stars: Stars, mods: Modules, m: string) returns (mods': Modules, changed: bool)
    requires m in stars && m in mods
    ensures mods' == TakenAll(mods, m, stars[m])
    ensures Longer(mods, mods') && (changed <==> mods' != mods)
  {
    mods', changed := mods, false;
    forall x ensures LongerAt(mods, mods, x) {
    }
    for j := 0 to |stars[m]|
      invariant mods' == TakenAll(mods, m, stars[m][..j])
      invariant Longer(mods, mods') && (changed <==> mods' != mods)
    {
      ghost var was := mods';
      var c;
      mods', c := TakeOver(mods', m, stars[m][j]);
      assert stars[m][..j + 1][..j] == stars[m][..j];
      TakenLonger(was, m, stars[m][j]);
      LongerOn(mods, was, mods');
      changed := changed || c;
    }
    assert stars[m][..|stars[m]|] == stars[m];
  }

  /** One round over all modules, in the order of the dictionary. */
  method Round(stars: Stars, order: seq<string>, mods: Modules) returns (mods': Modules, changed: bool)
    requires forall m | m in order :: m in stars && m in mods
    ensures mods' == RoundTo(mods, stars, order, |order|)
    ensures Longer(mods, mods') && (changed <==> mods' != mods)
  {
    mods', changed := mods, false;
    forall x ensures LongerAt(mods, mods, x) {
    }
    for i := 0 to |order|
      invariant mods' == RoundTo(mods, stars, order, i)
      invariant Longer(mods, mods') && (changed <==> mods' != mods)
    {
      ghost var was := mods';
      var c;
      mods', c := TakeOverAll(stars, mods', order[i]);
      LongerOn(mods, was, mods');
      changed := changed || c;
    }
  }

  const MAX_ROUNDS: nat := 8

  /** `order` lists the modules that have star imports recorded, all of them collected. */
  ghost predicate Listing(own: Modules, stars: Stars, order: seq<string>) {
    stars.Keys <= own.Keys && forall m :: m in order <==> m in stars
  }

  /** `resolve_reexports`: always what eight full rounds give, whether or not it stops early. */
  method ResolveReexports(own: Modules, stars: Stars, order: seq<string>)
    returns (mods: Modules, rounds: nat, changed: bool)
    requires Listing(own, stars, order)
    ensures Ok(own, stars, mods) && rounds <= 8
    ensures mods == AfterRounds(own, stars, order, rounds) == AfterRounds(own, stars, order, MAX_ROUNDS)
    ensures if changed then rounds == 8 else RoundTo(mods, stars, order, |order|) == mods
  {
    mods, rounds, changed := own, 0, true;
    while changed && rounds < MAX_ROUNDS
      invariant rounds <= MAX_ROUNDS && mods == AfterRounds(own, stars, order, rounds)
      invariant !changed ==> RoundTo(mods, stars, order, |order|) == mods
      decreases MAX_ROUNDS - rounds
    {
      mods, changed := Round(stars, order, mods);
      rounds := rounds + 1;
    }
    AfterRoundsOk(own, stars, order, rounds);
    if !changed {
      StableRounds(own, stars, order, rounds, MAX_ROUNDS);
    }
  }

  /** Some module within k imports of m owns the name. */
  ghost predicate OwnedWithin(own: Modules, stars: Stars, m: string, isClass: bool, name: string, k: nat) {
    exists t :: Within(own, stars, m, t, k) && HasName(List(own[t], isClass), name)
  }
}

/**
 Exactly what `resolve_reexports` computes, for every graph of star imports and every order of the
 dictionary. A round works in place, so a name crosses an import in the same round if the target
 comes earlier in the order than the importer, and one round later otherwise.
 */
module Arrivals {
  import opened Prelude
  import opened Stubs
  import opened Reexports

  /** The input: the modules' own stubs, their star imports and the order of the dictionary. */
  datatype Imports = Imports(own: Modules, stars: Stars, order: seq<string>)

  datatype Key = Key(isClass: bool, name: string)

  /** A dictionary lists each of its keys once. */
  ghost predicate Ordered(g: Imports) {
    Listing(g.own, g.stars, g.order) && NoRepeats(g.order)
  }

  ghost predicate Has(mods: Modules, m: string, key: Key) {
    m in mods && HasName(List(mods[m], key.isClass), key.name)
  }

  /** The place of x in the order; past the end if it has none. */
  ghost function Pos(order: seq<string>, x: string): (i: nat)
    ensures if x in order then i < |order| && order[i] == x else i == |order|
  {
    if order == [] then 0 else if order[0] == x then 0 else 1 + Pos(order[1..], x)
  }

  lemma PosAt(order: seq<string>, i: nat)
    requires NoRepeats(order) && i < |order|
    ensures Pos(order, order[i]) == i
  {
  }

  /** After r rounds the name has come to m. */
  ghost predicate Arrives(g: Imports, m: string, key: Key, r: nat)
    decreases r, Pos(g.order, m)
  {
    || Has(g.own, m, key)
    || (r > 0 &&
        exists u :: Edge(g.own, g.stars, m, u) &&
                    if Pos(g.order, u) < Pos(g.order, m) then Arrives(g, u, key, r) else Arrives(g, u, key, r - 1))
  }

  /** How far the name has come to x when the first i modules of round r + 1 are done. */
  ghost predicate ArrivesBy(g: Imports, x: string, key: Key, r: nat, i: nat) {
    if Pos(g.order, x) < i then Arrives(g, x, key, r + 1) else Arrives(g, x, key, r)
  }

  lemma {:induction false} ArrivesMore(g: Imports, m: string, key: Key, r: nat)
    requires Arrives(g, m, key, r)
    ensures Arrives(g, m, key, r + 1)
    decreases r, Pos(g.order, m)
  {
    if !Has(g.own, m, key) {
      var u :| Edge(g.own, g.stars, m, u) &&
               if Pos(g.order, u) < Pos(g.order, m) then Arrives(g, u, key, r) else Arrives(g, u, key, r - 1);
      if Pos(g.order, u) < Pos(g.order, m) {
        ArrivesMore(g, u, key, r);
      } else {
        ArrivesMore(g, u, key, r - 1);
      }
    }
  }

  lemma {:induction false} ArrivesLater(g: Imports, m: string, key: Key, r: nat, r': nat)
    requires Arrives(g, m, key, r) && r <= r'
    ensures Arrives(g, m, key, r')
    decreases r' - r
  {
    if r < r' {
      ArrivesMore(g, m, key, r);
      ArrivesLater(g, m, key, r + 1, r');
    }
  }

  /** The next round brings to m what it has and what its targets have when m's turn comes. */
  lemma ArrivesNext(g: Imports, m: string, key: Key, r: nat)
    requires m in g.own && m in g.stars
    ensures Arrives(g, m, key, r + 1) <==>
            Arrives(g, m, key, r) ||
            exists u :: u in g.stars[m] && u in g.own && ArrivesBy(g, u, key, r, Pos(g.order, m))
  {
    if Arrives(g, m, key, r) {
      ArrivesMore(g, m, key, r);
    }
    if u :| u in g.stars[m] && u in g.own && ArrivesBy(g, u, key, r, Pos(g.order, m)) {
      assert Edge(g.own, g.stars, m, u);
    }
    if Arrives(g, m, key, r + 1) && !Has(g.own, m, key) {
      var u :| Edge(g.own, g.stars, m, u) &&
               if Pos(g.order, u) < Pos(g.order, m) then Arrives(g, u, key, r + 1) else Arrives(g, u, key, r);
      assert ArrivesBy(g, u, key, r, Pos(g.order, m));
    }
  }

  /** Taking over one target adds exactly its names, to m only. */
  lemma TakenNames(mods: Modules, m: string, u: string, x: string, key: Key)
    ensures Has(Taken(mods, m, u), x, key) <==> Has(mods, x, key) || (x == m && m in mods && Has(mods, u, key))
  {
    if m in mods && u in mods {
      MergeList(mods[m], mods[u], m, key.isClass);
      CopyNames(List(mods[m], key.isClass), List(mods[u], key.isClass), m, key.name);
    }
  }

  lemma {:induction false} TakenAllNames(mods: Modules, m: string, targets: seq<string>, x: string, key: Key)
    ensures Has(TakenAll(mods, m, targets), x, key) <==>
            Has(mods, x, key) || (x == m && m in mods && exists u :: u in targets && Has(mods, u, key))
    decreases |targets|
  {
    if targets != [] {
      var n := |targets| - 1;
      var before, u := TakenAll(mods, m, targets[..n]), targets[n];
      TakenAllNames(mods, m, targets[..n], x, key);
      TakenAllNames(mods, m, targets[..n], u, key);
      TakenNames(before, m, u, x, key);
      assert targets == targets[..n] + [u];
    }
  }

  /** Inside a round, module by module. */
  lemma {:induction false} RoundNames(g: Imports, mods: Modules, key: Key, r: nat, i: nat, x: string)
    requires Ordered(g) && i <= |g.order| && mods.Keys == g.own.Keys
    requires forall y :: Has(mods, y, key) <==> Arrives(g, y, key, r)
    ensures Has(RoundTo(mods, g.stars, g.order, i), x, key) <==> ArrivesBy(g, x, key, r, i)
    decreases i
  {
    if i > 0 {
      var m := g.order[i - 1];
      var before := RoundTo(mods, g.stars, g.order, i - 1);
      PosAt(g.order, i - 1);
      TakenAllNames(before, m, g.stars[m], x, key);
      RoundNames(g, mods, key, r, i - 1, x);
      if x == m {
        forall u | u in g.stars[m] ensures Has(before, u, key) <==> ArrivesBy(g, u, key, r, i - 1) {
          RoundNames(g, mods, key, r, i - 1, u);
        }
        TurnNames(g, before, key, r, m);
      }
    }
  }

  /** When its turn comes a module gets exactly what the next round brings it. */
  lemma TurnNames(g: Imports, before: Modules, key: Key, r: nat, m: string)
    requires before.Keys == g.own.Keys && m in g.own && m in g.stars
    requires Has(before, m, key) <==> Arrives(g, m, key, r)
    requires forall u | u in g.stars[m] :: Has(before, u, key) <==> ArrivesBy(g, u, key, r, Pos(g.order, m))
    ensures Has(TakenAll(before, m, g.stars[m]), m, key) <==> Arrives(g, m, key, r + 1)
  {
    TakenAllNames(before, m, g.stars[m], m, key);
    ArrivesNext(g, m, key, r);
    forall u | u in g.stars[m] && Has(before, u, key) ensures u in g.own {
    }
  }

  /** A module without recorded imports only ever has its own names. */
  lemma NoImports(g: Imports, m: string, key: Key, r: nat)
    requires m !in g.stars
    ensures Arrives(g, m, key, r) <==> Has(g.own, m, key)
  {
  }

  /** The law: after r rounds a module has exactly the names that arrive within r rounds. */
  lemma {:induction false} ArrivalLaw(g: Imports, r: nat, m: string, key: Key)
    requires Ordered(g)
    ensures Has(AfterRounds(g.own, g.stars, g.order, r), m, key) <==> Arrives(g, m, key, r)
    decreases r
  {
    if r > 0 {
      var mods := AfterRounds(g.own, g.stars, g.order, r - 1);
      forall y ensures Has(mods, y, key) <==> Arrives(g, y, key, r - 1) {
        ArrivalLaw(g, r - 1, y, key);
      }
      RoundNames(g, mods, key, r - 1, |g.order|, m);
      if m !in g.order {
        NoImports(g, m, key, r - 1);
        NoImports(g, m, key, r);
      }
    }
  }

  // ----- the fixed point -----

  ghost predicate OwnedBy(g: Imports, m: string, key: Key, k: nat) {
    OwnedWithin(g.own, g.stars, m, key.isClass, key.name, k)
  }

  /** Some module that m reaches over star imports owns the name. */
  ghost predicate Owned(g: Imports, m: string, key: Key) {
    exists k: nat :: OwnedBy(g, m, key, k)
  }

  /** The least fixed point: every module has exactly the names owned by modules it reaches. */
  ghost predicate IsFixpoint(g: Imports, mods: Modules) {
    forall m, key :: Has(mods, m, key) <==> Owned(g, m, key)
  }

  lemma {:induction false} OwnedArrives(g: Imports, m: string, t: string, key: Key, k: nat)
    requires Within(g.own, g.stars, m, t, k) && Has(g.own, t, key)
    ensures Arrives(g, m, key, k)
    decreases k
  {
    if m != t {
      var u :| Edge(g.own, g.stars, m, u) && Within(g.own, g.stars, u, t, k - 1);
      OwnedArrives(g, u, t, key, k - 1);
      ArrivesMore(g, u, key, k - 1);
    }
  }

  lemma {:induction false} ArrivesOwned(g: Imports, m: string, key: Key, r: nat)
    requires Arrives(g, m, key, r)
    ensures Owned(g, m, key)
    decreases r, Pos(g.order, m)
  {
    if Has(g.own, m, key) {
      assert Within(g.own, g.stars, m, m, 0);
      assert OwnedBy(g, m, key, 0);
    } else {
      var u :| Edge(g.own, g.stars, m, u) &&
               if Pos(g.order, u) < Pos(g.order, m) then Arrives(g, u, key, r) else Arrives(g, u, key, r - 1);
      ArrivesOwned(g, u, key, if Pos(g.order, u) < Pos(g.order, m) then r else r - 1);
      var k: nat :| OwnedBy(g, u, key, k);
      var t :| Within(g.own, g.stars, u, t, k) && HasName(List(g.own[t], key.isClass), key.name);
      assert Within(g.own, g.stars, m, t, k + 1);
      assert OwnedBy(g, m, key, k + 1);
    }
  }

  ghost predicate ArrivesEver(g: Imports, m: string, key: Key) {
    exists r: nat :: Arrives(g, m, key, r)
  }

  /** A name is owned somewhere in reach exactly when it arrives after enough rounds. */
  lemma OwnedIffArrives(g: Imports, m: string, key: Key)
    ensures Owned(g, m, key) <==> ArrivesEver(g, m, key)
  {
    if Owned(g, m, key) {
      var k: nat :| OwnedBy(g, m, key, k);
      var t :| Within(g.own, g.stars, m, t, k) && HasName(List(g.own[t], key.isClass), key.name);
      OwnedArrives(g, m, t, key, k);
    }
    if ArrivesEver(g, m, key) {
      var r: nat :| Arrives(g, m, key, r);
      ArrivesOwned(g, m, key, r);
    }
  }

  /** Every name that arrives at all arrives within eight rounds. */
  ghost predicate EightSuffice(g: Imports) {
    forall m, key :: ArrivesEver(g, m, key) ==> Arrives(g, m, key, MAX_ROUNDS)
  }

  /** The capped loop computes the fixed point if and only if eight rounds suffice. */
  lemma FixpointIffEightSuffice(g: Imports)
    requires Ordered(g)
    ensures IsFixpoint(g, AfterRounds(g.own, g.stars, g.order, MAX_ROUNDS)) <==> EightSuffice(g)
  {
    var mods := AfterRounds(g.own, g.stars, g.order, MAX_ROUNDS);
    forall m, key ensures Has(mods, m, key) <==> Arrives(g, m, key, MAX_ROUNDS) {
      ArrivalLaw(g, MAX_ROUNDS, m, key);
    }
    forall m, key ensures Owned(g, m, key) <==> ArrivesEver(g, m, key) {
      OwnedIffArrives(g, m, key);
    }
    forall m, key | Arrives(g, m, key, MAX_ROUNDS) ensures ArrivesEver(g, m, key) {
    }
  }

  /** After k rounds a module has every name owned within k imports. */
  lemma CompleteWithin(g: Imports, m: string, key: Key, k: nat)
    requires Ordered(g) && OwnedBy(g, m, key, k)
    ensures Has(AfterRounds(g.own, g.stars, g.order, k), m, key)
  {
    var t :| Within(g.own, g.stars, m, t, k) && HasName(List(g.own[t], key.isClass), key.name);
    OwnedArrives(g, m, t, key, k);
    ArrivalLaw(g, k, m, key);
  }

  /** A round that changes nothing has reached the least fixed point. */
  lemma StableIsLeastFixpoint(g: Imports, r: nat)
    requires Ordered(g)
    requires var mods := AfterRounds(g.own, g.stars, g.order, r); RoundTo(mods, g.stars, g.order, |g.order|) == mods
    ensures IsFixpoint(g, AfterRounds(g.own, g.stars, g.order, r))
  {
    var mods := AfterRounds(g.own, g.stars, g.order, r);
    forall m, key ensures Has(mods, m, key) <==> Owned(g, m, key) {
      ArrivalLaw(g, r, m, key);
      if Has(mods, m, key) {
        ArrivesOwned(g, m, key, r);
      }
      if Owned(g, m, key) {
        var k: nat :| OwnedBy(g, m, key, k);
        var k' := if k < r then r else k;
        CompleteWithin(g, m, key, k);
        ArrivalLaw(g, k, m, key);
        ArrivesLater(g, m, key, k, k');
        ArrivalLaw(g, k', m, key);
        StableRounds(g.own, g.stars, g.order, r, k');
      }
    }
  }

  /** Every importer comes before all its targets. */
  ghost predicate ImportersFirst(g: Imports) {
    forall m, u | Edge(g.own, g.stars, m, u) :: Pos(g.order, m) < Pos(g.order, u)
  }

  /** When importers come first, k rounds carry a name exactly k imports far. */
  lemma {:induction false} ImportersFirstExact(g: Imports, m: string, key: Key, k: nat)
    requires ImportersFirst(g)
    ensures Arrives(g, m, key, k) <==> OwnedBy(g, m, key, k)
    decreases k
  {
    if OwnedBy(g, m, key, k) {
      var t :| Within(g.own, g.stars, m, t, k) && HasName(List(g.own[t], key.isClass), key.name);
      OwnedArrives(g, m, t, key, k);
    }
    if Arrives(g, m, key, k) {
      if Has(g.own, m, key) {
        assert Within(g.own, g.stars, m, m, k);
      } else {
        var u :| Edge(g.own, g.stars, m, u) &&
                 if Pos(g.order, u) < Pos(g.order, m) then Arrives(g, u, key, k) else Arrives(g, u, key, k - 1);
        ImportersFirstExact(g, u, key, k - 1);
        var t :| Within(g.own, g.stars, u, t, k - 1) && HasName(List(g.own[t], key.isClass), key.name);
        assert Within(g.own, g.stars, m, t, k);
      }
    }
  }

  /** `resolve_reexports` on any input: which names every module ends up with, and when that is all. */
  method Resolve(g: Imports) returns (mods: Modules, rounds: nat, changed: bool)
    requires Ordered(g)
    ensures forall m, key :: Has(mods, m, key) <==> Arrives(g, m, key, MAX_ROUNDS)
    ensures IsFixpoint(g, mods) <==> EightSuffice(g)
    ensures if changed then rounds == MAX_ROUNDS else rounds <= MAX_ROUNDS && IsFixpoint(g, mods)
  {
    mods, rounds, changed := ResolveReexports(g.own, g.stars, g.order);
    forall m, key ensures Has(mods, m, key) <==> Arrives(g, m, key, MAX_ROUNDS) {
      ArrivalLaw(g, MAX_ROUNDS, m, key);
    }
    FixpointIffEightSuffice(g);
    if !changed {
      StableIsLeastFixpoint(g, rounds);
    }
  }

  // ----- a failing input -----

  const CHAIN: nat := 10

  function Letter(i: nat): string
    requires i < CHAIN
  {
    [(97 + i) as char]
  }

  function ChainOrder(): seq<string> {
    seq(CHAIN, i requires 0 <= i < CHAIN => Letter(i))
  }

  /** a imports from b, b from c, and so on; only j, ten modules on, owns anything. */
  ghost function Chain(): Imports {
    var order := ChainOrder();
    Imports(map m | m in order :: ModuleStubs(if m == Letter(9) then [Entry("j.C", "C", [])] else [], []),
            map m | m in order :: if m == Letter(9) then [] else [order[Pos(order, m) + 1]],
            order)
  }

  lemma ChainOrdered()
    ensures Ordered(Chain())
  {
  }

  lemma ChainPlaces()
    ensures forall i | 0 <= i < CHAIN :: Letter(i) in Chain().own && Pos(Chain().order, Letter(i)) == i
  {
    var order := ChainOrder();
    forall i | 0 <= i < CHAIN ensures Letter(i) in order && Pos(order, Letter(i)) == i {
      assert order[i] == Letter(i);
      PosAt(order, i);
    }
  }

  lemma ChainEdge(i: nat, u: string)
    requires i < CHAIN
    ensures Edge(Chain().own, Chain().stars, Letter(i), u) <==> i < CHAIN - 1 && u == Letter(i + 1)
  {
    ChainPlaces();
    assert Chain().stars[Letter(i)] == if i == CHAIN - 1 then [] else [Letter(i + 1)];
    if i < CHAIN - 1 {
      assert Letter(i + 1) in Chain().own;
    }
  }

  /** The class needs one round for every import on its way. */
  lemma {:induction false} ChainIsSlow(i: nat, r: nat)
    requires i < CHAIN && Arrives(Chain(), Letter(i), Key(true, "C"), r)
    ensures CHAIN - 1 <= i + r
    decreases r
  {
    var g := Chain();
    ChainPlaces();
    if i < CHAIN - 1 {
      assert !Has(g.own, Letter(i), Key(true, "C"));
      var u :| Edge(g.own, g.stars, Letter(i), u) &&
               if Pos(g.order, u) < Pos(g.order, Letter(i)) then Arrives(g, u, Key(true, "C"), r) else Arrives(g, u, Key(true, "C"), r - 1);
      ChainEdge(i, u);
      ChainIsSlow(i + 1, r - 1);
    }
  }

  lemma {:induction false} ChainArrives(i: nat)
    requires i < CHAIN
    ensures Arrives(Chain(), Letter(i), Key(true, "C"), CHAIN - 1 - i)
    decreases CHAIN - i
  {
    var g := Chain();
    ChainPlaces();
    if i == CHAIN - 1 {
      assert List(g.own[Letter(9)], true)[0].shortName == "C";
    } else {
      ChainArrives(i + 1);
      ChainEdge(i, Letter(i + 1));
    }
  }

  lemma ChainTooLate()
    ensures !Arrives(Chain(), Letter(0), Key(true, "C"), MAX_ROUNDS)
  {
    if Arrives(Chain(), Letter(0), Key(true, "C"), MAX_ROUNDS) {
      ChainIsSlow(0, MAX_ROUNDS);
    }
  }

  /** A name that arrives too late is owned in reach and missing in the result. */
  lemma LateIsCutOff(g: Imports, m: string, key: Key)
    requires Ordered(g) && ArrivesEver(g, m, key) && !Arrives(g, m, key, MAX_ROUNDS)
    ensures Owned(g, m, key) && !Has(AfterRounds(g.own, g.stars, g.order, MAX_ROUNDS), m, key)
    ensures !EightSuffice(g)
  {
    OwnedIffArrives(g, m, key);
    ArrivalLaw(g, MAX_ROUNDS, m, key);
  }

  /** On a chain of ten the loop stops short: the first module can reach the class of the last and does not get it. */
  lemma ChainIsCutOff(g: Imports, key: Key)
    requires g == Chain() && key == Key(true, "C")
    ensures Ordered(g) && Owned(g, Letter(0), key)
    ensures !Has(AfterRounds(g.own, g.stars, g.order, MAX_ROUNDS), Letter(0), key)
    ensures !EightSuffice(g)
  {
    assert Ordered(g) by {
      ChainOrdered();
    }
    assert ArrivesEver(g, Letter(0), key) by {
      ChainArrives(0);
    }
    assert !Arrives(g, Letter(0), key, MAX_ROUNDS) by {
      ChainTooLate();
    }
    LateIsCutOff(g, Letter(0), key);
  }
}

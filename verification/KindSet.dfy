/**
 The node-type test `cbm_kind_in_set` and the symbol-bitset cache behind it: linear probing over
 512 slots, bitsets built on first use, a string comparison whenever a bitset cannot be used.
 */
module KindSet {
  import opened Prelude
  import opened Word64

  const SLOTS: nat := 512
  const PROBE: nat := 8

  /** A grammar's symbol table: how many symbols, and the symbol looked up for a (name, namedness) pair. */
  datatype Language = Language(symbolCount: nat, symbolFor: (string, bool) -> nat) {
    /** Symbol 0 means that a lookup failed; the built-in error symbol is out of range. */
    predicate InRange(sym: nat) {
      0 < sym < symbolCount
    }
  }

  /** A node as the test sees it; `language` is null for a node without a tree. */
  datatype TSNode = TSNode(language: Option<nat>, kind: string, symbol: nat)

  /** Languages and type arrays are identified by address; their contents never change. */
  datatype World = World(language: nat -> Language, types: nat -> seq<string>, hash: (nat, nat) -> nat)

  /** The node's symbol, if it is in range, is not looked up under any other name than its kind. */
  ghost predicate OwnSymbol(l: Language, n: TSNode) {
    l.InRange(n.symbol) ==> forall t, x :: l.symbolFor(t, x) == n.symbol ==> t == n.kind
  }

  ghost predicate Proper(w: World, n: TSNode) {
    n.language.Some? ==> OwnSymbol(w.language(n.language.value), n)
  }

  /** A lookup of the node's kind gives the node's symbol, and the symbol is in range. */
  predicate Ordinary(l: Language, n: TSNode) {
    l.InRange(n.symbol) && (n.symbol == l.symbolFor(n.kind, true) || n.symbol == l.symbolFor(n.kind, false))
  }

  // ----- the runtime's symbol tables -----

  const ERROR_SYMBOL: nat := 65535

  /** One entry of a generated symbol table; `shown` is visible or a supertype. */
  datatype Symbol = Symbol(name: string, named: bool, shown: bool, public: nat)

  /** `ts_language_symbol_for_name`: any prefix of "ERROR" is the error symbol, else the first match. */
  function Lookup(table: seq<Symbol>, name: string, named: bool): nat {
    if named && name <= "ERROR" then ERROR_SYMBOL else FirstMatch(table, name, named, 0)
  }

  function FirstMatch(table: seq<Symbol>, name: string, named: bool, i: nat): (sym: nat)
    requires i <= |table|
    ensures sym == 0 || exists j :: i <= j < |table| && table[j].name == name && table[j].named == named && table[j].public == sym
    decreases |table| - i
  {
    if i == |table| then 0
    else if table[i].shown && table[i].named == named && table[i].name == name then table[i].public
    else FirstMatch(table, name, named, i + 1)
  }

  function RuntimeLanguage(table: seq<Symbol>): Language {
    Language(|table|, (name, named) => Lookup(table, name, named))
  }

  /** A public symbol is one of the table's, of the same name and namedness. */
  ghost predicate PublicOk(table: seq<Symbol>, i: nat)
    requires i < |table|
  {
    var p := table[i].public;
    p < |table| && table[p].name == table[i].name && table[p].named == table[i].named
  }

  ghost predicate WellFormed(table: seq<Symbol>) {
    |table| <= ERROR_SYMBOL && forall i | 0 <= i < |table| :: PublicOk(table, i)
  }

  ghost predicate SharesPublic(table: seq<Symbol>, i: nat, j: nat)
    requires i < |table| && j < |table|
  {
    table[i].shown && table[j].shown && table[i].name == table[j].name && table[i].named == table[j].named ==>
      table[i].public == table[j].public
  }

  /** One public symbol per name and namedness. */
  ghost predicate OnePublic(table: seq<Symbol>) {
    forall i, j | 0 <= i < |table| && 0 <= j < |table| :: SharesPublic(table, i, j)
  }

  /** Every node the runtime makes meets what the cache needs, error nodes included. */
  lemma RuntimeNodesAreProper(table: seq<Symbol>, n: TSNode, internal: nat)
    requires WellFormed(table)
    requires if internal == ERROR_SYMBOL then n.symbol == ERROR_SYMBOL && n.kind == "ERROR"
             else internal < |table| && n.symbol == table[internal].public && n.kind == table[internal].name
    ensures OwnSymbol(RuntimeLanguage(table), n)
  {
    var l := RuntimeLanguage(table);
    if l.InRange(n.symbol) {
      forall t, x | l.symbolFor(t, x) == n.symbol ensures t == n.kind {
        assert Lookup(table, t, x) == n.symbol;
        var j :| 0 <= j < |table| && table[j].name == t && table[j].public == n.symbol;
        assert PublicOk(table, j);
        if internal != ERROR_SYMBOL {
          assert PublicOk(table, internal);
        }
      }
    }
  }

  lemma {:induction false} FirstMatchIs(table: seq<Symbol>, i: nat, k: nat)
    requires OnePublic(table) && k <= i < |table| && table[i].shown
    ensures FirstMatch(table, table[i].name, table[i].named, k) == table[i].public
    decreases i - k
  {
    assert SharesPublic(table, k, i);
    if k < i && !(table[k].shown && table[k].named == table[i].named && table[k].name == table[i].name) {
      FirstMatchIs(table, i, k + 1);
    }
  }

  /** A lookup among the tokens gives no symbol of a rule. */
  lemma TokenLookup(table: seq<Symbol>, name: string)
    requires WellFormed(table)
    ensures var sym := Lookup(table, name, false); sym == 0 || (sym < |table| && !table[sym].named)
  {
    var sym := Lookup(table, name, false);
    if sym != 0 {
      var j :| 0 <= j < |table| && table[j].name == name && !table[j].named && table[j].public == sym;
      assert PublicOk(table, j);
    }
  }

  /**
   With one public symbol per name and namedness and no symbol 0, the nodes that are not ordinary
   are the error nodes and those of a named rule spelled like a beginning of "ERROR".
   */
  lemma RuntimeNodesAreOrdinary(table: seq<Symbol>, n: TSNode, i: nat)
    requires WellFormed(table) && OnePublic(table) && i < |table| && table[i].shown && table[i].public != 0
    requires n.symbol == table[i].public && n.kind == table[i].name
    ensures Ordinary(RuntimeLanguage(table), n) <==> !(table[i].named && table[i].name <= "ERROR")
  {
    assert PublicOk(table, i);
    if table[i].named && table[i].name <= "ERROR" {
      TokenLookup(table, n.kind);
    } else {
      FirstMatchIs(table, i, 0);
    }
  }

  // ----- bitsets -----

  function WordCount(nsyms: nat): nat {
    (nsyms + 63) / 64
  }

  /** `bits[sym >> 6] >> (sym & 63) & 1` */
  predicate Test(bits: seq<Word>, sym: nat)
    requires sym / 64 < |bits|
  {
    bits[sym / 64][sym % 64]
  }

  /** `bits[sym >> 6] |= 1 << (sym & 63)` */
  function SetBit(bits: seq<Word>, sym: nat): (r: seq<Word>)
    requires sym / 64 < |bits|
    ensures |r| == |bits|
    ensures forall y: nat | y / 64 < |bits| :: Test(r, y) <==> Test(bits, y) || y == sym
  {
    bits[sym / 64 := Or(bits[sym / 64], One(sym % 64))]
  }

  ghost predicate Names(l: Language, t: string, sym: nat) {
    sym != 0 && (sym == l.symbolFor(t, true) || sym == l.symbolFor(t, false))
  }

  /** Some of the first k type names has symbol sym. */
  ghost predicate NamedBySome(l: Language, types: seq<string>, k: nat, sym: nat)
    requires k <= |types|
  {
    exists i :: 0 <= i < k && Names(l, types[i], sym)
  }

  /** The bitset of the first k type names. */
  ghost predicate BitsOf(l: Language, types: seq<string>, k: nat, bits: seq<Word>)
    requires k <= |types|
  {
    && |bits| == WordCount(l.symbolCount)
    && forall y: nat | y < l.symbolCount :: y / 64 < |bits| && (Test(bits, y) <==> NamedBySome(l, types, k, y))
  }

  /** Every name has an in-range symbol, named or anonymous. */
  ghost predicate Resolved(l: Language, t: string) {
    0 < l.symbolFor(t, true) < l.symbolCount || 0 < l.symbolFor(t, false) < l.symbolCount
  }

  ghost predicate AllResolved(l: Language, types: seq<string>) {
    forall t | t in types :: Resolved(l, t)
  }

  datatype Slot = Empty | Slot(lang: nat, types: nat, bits: Option<seq<Word>>, nsyms: nat, exact: bool)

  /** Taken by another language or another list. */
  predicate Foreign(s: Slot, lang: nat, types: nat) {
    s.Slot? && !(s.lang == lang && s.types == types)
  }

  ghost predicate SlotOk(w: World, s: Slot) {
    s.Slot? && s.exact ==>
      && s.bits.Some?
      && s.nsyms == w.language(s.lang).symbolCount
      && BitsOf(w.language(s.lang), w.types(s.types), |w.types(s.types)|, s.bits.value)
      && AllResolved(w.language(s.lang), w.types(s.types))
  }

  /** What an exact bitset answers: the kind is listed and a lookup of it gives the node's symbol. */
  lemma BitsMeaning(w: World, s: Slot, n: TSNode)
    requires s.Slot? && s.exact && SlotOk(w, s)
    requires n.language == Some(s.lang) && Proper(w, n) && n.symbol < s.nsyms
    ensures n.symbol / 64 < |s.bits.value|
    ensures Test(s.bits.value, n.symbol) <==> n.kind in w.types(s.types) && Ordinary(w.language(s.lang), n)
  {
    var l, types := w.language(s.lang), w.types(s.types);
    assert OwnSymbol(l, n);
    if NamedBySome(l, types, |types|, n.symbol) {
      var i :| 0 <= i < |types| && Names(l, types[i], n.symbol);
      assert types[i] == n.kind;
    }
    if Ordinary(l, n) && n.kind in types {
      var i :| 0 <= i < |types| && types[i] == n.kind;
      assert Names(l, types[i], n.symbol);
    }
  }

  // ----- which queries a bitset answers -----

  /** The slot looked at in the k-th probe. */
  function Home(w: World, lang: nat, types: nat, k: nat): (i: nat)
    ensures i < SLOTS
  {
    (w.hash(lang, types) + k) % SLOTS
  }

  ghost predicate Buildable(w: World, lang: nat, types: nat, callocOk: bool) {
    w.language(lang).symbolCount > 0 && callocOk && AllResolved(w.language(lang), w.types(types))
  }

  /** From the k-th probe on, an exact slot is found or can be built. */
  ghost predicate BitsReady(w: World, slots: seq<Slot>, lang: nat, types: nat, callocOk: bool, k: nat)
    requires |slots| == SLOTS && k <= PROBE
    decreases PROBE - k
  {
    if k == PROBE then false
    else
      var s := slots[Home(w, lang, types, k)];
      if s.Empty? then Buildable(w, lang, types, callocOk)
      else if Foreign(s, lang, types) then BitsReady(w, slots, lang, types, callocOk, k + 1)
      else s.exact
  }

  /** A bitset answers the query; said in terms of the query and the cache before it. */
  ghost predicate ByBits(w: World, slots: seq<Slot>, n: TSNode, types: nat, callocOk: bool)
    requires |slots| == SLOTS
  {
    n.language.Some? && w.types(types) != [] && BitsReady(w, slots, n.language.value, types, callocOk, 0)
  }

  /** The answer differs from the comparison: a bitset answers for a listed kind that is not ordinary. */
  ghost predicate Misses(w: World, slots: seq<Slot>, n: TSNode, types: nat, callocOk: bool)
    requires |slots| == SLOTS
  {
    ByBits(w, slots, n, types, callocOk) && n.kind in w.types(types) && !Ordinary(w.language(n.language.value), n)
  }

  /** `kind_in_set_strcmp` */
  method LinearCompare(kind: string, types: seq<string>) returns (found: bool)
    ensures found <==> kind in types
  {
    for i := 0 to |types|
      invariant kind !in types[..i]
    {
      if kind == types[i] {
        return true;
      }
    }
    return false;
  }

  class Cache {
    const w: World
    const slots: array<Slot>

    ghost predicate Valid()
      reads this, slots
    {
      && slots.Length == SLOTS
      && forall i | 0 <= i < SLOTS :: SlotOk(w, slots[i])
    }

    constructor (w: World)
      ensures Valid() && this.w == w && fresh(slots)
      ensures forall i | 0 <= i < SLOTS :: slots[i].Empty?
    {
      this.w := w;
      slots := new Slot[SLOTS](_ => Empty);
    }

    /** The symbols of one type name go into the bitset. */
    method AddName(l: Language, t: string, bits: seq<Word>, ghost types: seq<string>, ghost k: nat)
      returns (bits': seq<Word>, any: bool)
      requires k < |types| && types[k] == t && BitsOf(l, types, k, bits)
      ensures BitsOf(l, types, k + 1, bits') && (any <==> Resolved(l, t))
    {
      var sn, sa := l.symbolFor(t, true), l.symbolFor(t, false);
      bits', any := bits, false;
      if sn != 0 && sn < l.symbolCount {
        bits' := SetBit(bits', sn);
        any := true;
      }
      if sa != 0 && sa < l.symbolCount {
        bits' := SetBit(bits', sa);
        any := true;
      }
      forall y: nat | y < l.symbolCount
        ensures NamedBySome(l, types, k + 1, y) <==> NamedBySome(l, types, k, y) || Names(l, t, y)
      {
      }
    }

    /** `ks_build`; `callocOk` says whether the bitset could be allocated. */
    method BuildSlot(lang: nat, types: nat, callocOk: bool) returns (s: Slot)
      ensures s.Slot? && s.lang == lang && s.types == types && SlotOk(w, s)
      ensures s.exact <==> Buildable(w, lang, types, callocOk)
    {
      s := Slot(lang, types, None, 0, false);
      var l, names := w.language(lang), w.types(types);
      if l.symbolCount == 0 || !callocOk {
        return;
      }
      var bits: seq<Word> := seq(WordCount(l.symbolCount), _ => Zero());
      var allResolved := true;
      for i := 0 to |names|
        invariant BitsOf(l, names, i, bits)
        invariant allResolved <==> forall t | t in names[..i] :: Resolved(l, t)
      {
        var any;
        bits, any := AddName(l, names[i], bits, names, i);
        if !any {
          allResolved := false;
        }
        assert names[..i + 1] == names[..i] + [names[i]];
      }
      if !allResolved {
        return;
      }
      assert names[..|names|] == names;
      s := Slot(lang, types, Some(bits), l.symbolCount, true);
    }

    /** `ks_get`: probe eight slots; build in the first empty one. */
    method Get(lang: nat, types: nat, callocOk: bool) returns (s: Option<Slot>)
      requires Valid()
      modifies slots
      ensures Valid()
      ensures s.Some? ==> s.value.Slot? && s.value.lang == lang && s.value.types == types && SlotOk(w, s.value)
      ensures s.None? <==> forall k | 0 <= k < 8 :: Foreign(old(slots[..])[Home(w, lang, types, k)], lang, types)
      ensures s.Some? && s.value.exact <==> BitsReady(w, old(slots[..]), lang, types, callocOk, 0)
      ensures forall i | 0 <= i < SLOTS && slots[i] != old(slots[i]) :: old(slots[i]).Empty? && s == Some(slots[i])
    {
      var h := w.hash(lang, types);
      for probe := 0 to PROBE
        invariant Valid() && slots[..] == old(slots[..])
        invariant forall k | 0 <= k < probe :: Foreign(slots[..][Home(w, lang, types, k)], lang, types)
        invariant BitsReady(w, slots[..], lang, types, callocOk, 0) <==> BitsReady(w, slots[..], lang, types, callocOk, probe)
      {
        var i := (h + probe) % SLOTS;
        assert slots[..][Home(w, lang, types, probe)] == slots[i];
        if slots[i].Empty? {
          var built := BuildSlot(lang, types, callocOk);
          slots[i] := built;
          return Some(built);
        }
        if slots[i].lang == lang && slots[i].types == types {
          return Some(slots[i]);
        }
      }
      return None;
    }

    /** `cbm_kind_in_set`: the answer is the linear comparison's if and only if the query is no miss. */
    method KindInSet(n: TSNode, types: Option<nat>, callocOk: bool) returns (result: bool)
      requires Valid() && Proper(w, n)
      modifies slots
      ensures Valid()
      ensures types.None? ==> !result
      ensures types.Some? ==>
                ((result <==> n.kind in w.types(types.value)) <==> !Misses(w, old(slots[..]), n, types.value, callocOk))
      ensures types.Some? && result ==> n.kind in w.types(types.value)
    {
      if types.None? || |w.types(types.value)| == 0 {
        return false;
      }
      if n.language.Some? {
        var s := Get(n.language.value, types.value, callocOk);
        if s.Some? && s.value.exact && s.value.bits.Some? {
          if n.symbol < s.value.nsyms {
            BitsMeaning(w, s.value, n);
            result := Test(s.value.bits.value, n.symbol);
          } else {
            result := false;
          }
          return;
        }
      }
      result := LinearCompare(n.kind, w.types(types.value));
    }

    /** `cbm_kind_in_set_free_cache` */
    method FreeCache()
      requires Valid()
      modifies slots
      ensures Valid() && forall i | 0 <= i < SLOTS :: slots[i].Empty?
    {
      for i := 0 to SLOTS
        invariant Valid()
        invariant forall j | 0 <= j < i :: slots[j].Empty?
      {
        slots[i] := Empty;
      }
    }

    /**
     Any history of queries and clears: no answer claims a kind that is not listed, and the answer
     for a node that is ordinary, or has no language, is the linear comparison's.
     */
    method Answers(ops: seq<Query>) returns (answers: seq<bool>)
      requires Valid()
      requires forall i | 0 <= i < |ops| && ops[i].Ask? :: Proper(w, ops[i].node)
      modifies slots
      ensures Valid() && |answers| == |ops|
      ensures forall i | 0 <= i < |ops| :: AnswerOk(w, ops[i], answers[i])
    {
      answers := [];
      for i := 0 to |ops|
        invariant Valid() && |answers| == i
        invariant forall j | 0 <= j < i :: AnswerOk(w, ops[j], answers[j])
      {
        match ops[i]
        case Clear =>
          FreeCache();
          answers := answers + [false];
        case Ask(n, types, callocOk) =>
          var r := KindInSet(n, types, callocOk);
          answers := answers + [r];
      }
    }
  }

  datatype Query = Clear | Ask(node: TSNode, types: Option<nat>, callocOk: bool)

  ghost predicate AnswerOk(w: World, op: Query, answer: bool) {
    op.Ask? ==>
      var listed := op.types.Some? && op.node.kind in w.types(op.types.value);
      && (answer ==> listed)
      && (op.node.language.None? || Ordinary(w.language(op.node.language.value), op.node) ==> (answer <==> listed))
  }

  // ----- failing inputs -----

  /** One grammar, one list of names, every hash the same. */
  function WorldOf(table: seq<Symbol>, list: seq<string>): World {
    World(_ => RuntimeLanguage(table), _ => list, (_, _) => 0)
  }

  /** A new cache misses a listed kind that is not ordinary, if every listed name has a symbol. */
  lemma MissedByNewCache(table: seq<Symbol>, list: seq<string>, slots: seq<Slot>, n: TSNode)
    requires |slots| == SLOTS && forall i | 0 <= i < SLOTS :: slots[i].Empty?
    requires |table| > 0 && AllResolved(RuntimeLanguage(table), list) && n.language == Some(0) && n.kind in list
    requires !Ordinary(RuntimeLanguage(table), n)
    ensures Misses(WorldOf(table, list), slots, n, 0, true)
  {
    assert BitsReady(WorldOf(table, list), slots, 0, 0, true, 0);
  }

  /** A grammar with a token spelled like the error node. */
  function ErrorTable(): seq<Symbol> {
    [Symbol("end", true, false, 0), Symbol("word", true, true, 1), Symbol("ERROR", false, true, 2)]
  }

  /** The built-in error node is listed, and a new cache answers that it is not. */
  method ErrorNodeMissed() returns (n: TSNode, answer: bool)
    ensures n == TSNode(Some(0), "ERROR", ERROR_SYMBOL) && WellFormed(ErrorTable())
    ensures Proper(WorldOf(ErrorTable(), ["ERROR"]), n) && !answer
  {
    n := TSNode(Some(0), "ERROR", ERROR_SYMBOL);
    var cache := new Cache(WorldOf(ErrorTable(), ["ERROR"]));
    TokenResolved(ErrorTable(), "ERROR");
    MissedByNewCache(ErrorTable(), ["ERROR"], cache.slots[..], n);
    answer := cache.KindInSet(n, Some(0), true);
  }

  /** A grammar with a rule spelled like a beginning of "ERROR" and a token of the same spelling. */
  function PrefixTable(): seq<Symbol> {
    [Symbol("end", true, false, 0), Symbol("E", true, true, 1), Symbol("E", false, true, 2)]
  }

  /** A node of that rule is listed, and a new cache answers that it is not. */
  method PrefixRuleMissed() returns (n: TSNode, answer: bool)
    ensures n == TSNode(Some(0), "E", 1) && WellFormed(PrefixTable()) && OnePublic(PrefixTable())
    ensures Proper(WorldOf(PrefixTable(), ["E"]), n) && !answer
  {
    n := TSNode(Some(0), "E", 1);
    var cache := new Cache(WorldOf(PrefixTable(), ["E"]));
    TokenResolved(PrefixTable(), "E");
    RuntimeNodesAreProper(PrefixTable(), n, 1);
    RuntimeNodesAreOrdinary(PrefixTable(), n, 1);
    MissedByNewCache(PrefixTable(), ["E"], cache.slots[..], n);
    answer := cache.KindInSet(n, Some(0), true);
  }

  lemma TokenResolved(table: seq<Symbol>, name: string)
    requires |table| == 3 && table[2] == Symbol(name, false, true, 2) && table[0].named && table[1].named
    ensures AllResolved(RuntimeLanguage(table), [name])
  {
    assert FirstMatch(table, name, false, 0) == FirstMatch(table, name, false, 1) == FirstMatch(table, name, false, 2);
    assert Lookup(table, name, false) == 2;
    assert Resolved(RuntimeLanguage(table), name);
  }
}

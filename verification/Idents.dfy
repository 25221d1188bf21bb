/**
 Identifier tokens of a function body: `hash_source_span`, `try_append_ident` and the walk of
 `extract_body_ident_tokens` with its stack of 512 nodes.
 */
module Idents {
  import opened Prelude
  import opened Tree
  import opened NodeStack
  import opened CappedWalk

  const BUF: nat := 512
  const MAX_IDENTS: nat := 40
  const SEEN: nat := 128
  const MAX_LEN: nat := 64
  const WALK_CAP: nat := 512
  const SPACE: Byte := 32

  // ----- hashing -----

  /** `h = h * 31 + byte` in 32-bit arithmetic. */
  function Hash(text: seq<Byte>): (h: nat)
    ensures h < 0x1_0000_0000
  {
    if text == [] then 0 else (Hash(text[..|text| - 1]) * 31 + text[|text| - 1]) % 0x1_0000_0000
  }

  /** `h | 1`: never zero, which marks a free slot. */
  function Key(text: seq<Byte>): (k: nat)
    ensures k > 0
  {
    var h := Hash(text); if h % 2 == 0 then h + 1 else h
  }

  /** 31 to the n. */
  ghost function Power(n: nat): nat {
    if n == 0 then 1 else 31 * Power(n - 1)
  }

  /** The bytes as digits to the base 31, the first the most significant. */
  ghost function Polynomial(text: seq<Byte>): nat {
    if text == [] then 0 else text[0] * Power(|text| - 1) + Polynomial(text[1..])
  }

  lemma {:induction false} PolynomialSnoc(text: seq<Byte>, b: Byte)
    ensures Polynomial(text + [b]) == Polynomial(text) * 31 + b
  {
    if text == [] {
      assert text + [b] == [b] && [b][1..] == [];
      assert Power(0) == 1;
    } else {
      PolynomialSnoc(text[1..], b);
      assert (text + [b])[1..] == text[1..] + [b];
      TimesBase(text[0], Power(|text| - 1), Polynomial(text[1..]));
    }
  }

  lemma TimesBase(d: nat, p: nat, rest: nat)
    ensures d * (31 * p) + rest * 31 == (d * p + rest) * 31
  {
  }

  lemma ReducedBefore(x: nat, b: nat)
    ensures (x % 0x1_0000_0000 * 31 + b) % 0x1_0000_0000 == (x * 31 + b) % 0x1_0000_0000
  {
    var q, r := x / 0x1_0000_0000, x % 0x1_0000_0000;
    assert x * 31 + b == (r * 31 + b) + 31 * q * 0x1_0000_0000;
  }

  /** The hash is the polynomial to the base 31 modulo 2 to the 32, and the key is the hash with its low bit set. */
  lemma {:induction false} HashLaw(text: seq<Byte>)
    ensures Hash(text) == Polynomial(text) % 0x1_0000_0000
    ensures Key(text) == Polynomial(text) % 0x1_0000_0000 / 2 * 2 + 1
  {
    if text != [] {
      var n := |text| - 1;
      HashLaw(text[..n]);
      assert text == text[..n] + [text[n]];
      PolynomialSnoc(text[..n], text[n]);
      ReducedBefore(Polynomial(text[..n]), text[n]);
    }
  }

  /** Texts that differ only in the last byte, by more than the low bit, have different keys. */
  lemma LastByteTells(text: seq<Byte>, a: Byte, b: Byte)
    requires a + 1 < b
    ensures Key(text + [a]) != Key(text + [b])
  {
    var h := Hash(text) * 31;
    assert (text + [a])[..|text|] == text && (text + [b])[..|text|] == text;
    LowBitApart(h + a, h + b);
  }

  lemma LowBitApart(x: nat, y: nat)
    requires x + 1 < y < x + 256
    ensures x % 0x1_0000_0000 / 2 != y % 0x1_0000_0000 / 2
  {
    var M := 0x1_0000_0000;
    var p, q := x / M, y / M;
    if q == p {
      assert y % M == x % M + (y - x);
    } else {
      assert q == p + 1;
      assert y % M == x % M + (y - x) - M;
    }
  }

  /** `hash_source_span` */
  method HashSpan(text: seq<Byte>) returns (h: nat)
    ensures h == Hash(text)
  {
    h := 0;
    for x := 0 to |text|
      invariant h == Hash(text[..x])
    {
      assert text[..x + 1][..x] == text[..x];
      h := (h * 31 + text[x]) % 0x1_0000_0000;
    }
    assert text[..|text|] == text;
  }

  // ----- the probe table -----

  /** The p-th slot looked at for a text. */
  function Slot(text: seq<Byte>, p: nat): (i: nat)
    ensures i < SEEN
  {
    (Hash(text) % SEEN + p) % SEEN
  }

  /** A lookup of the text stops at its key before it meets a free slot. */
  ghost predicate FoundAt(table: seq<nat>, text: seq<Byte>, p: nat)
    requires |table| == SEEN
  {
    p < SEEN && table[Slot(text, p)] == Key(text) && forall q: nat | q < p :: table[Slot(text, q)] != 0
  }

  ghost predicate Findable(table: seq<nat>, text: seq<Byte>)
    requires |table| == SEEN
  {
    exists p: nat :: FoundAt(table, text, p)
  }

  ghost predicate HasFree(table: seq<nat>) {
    exists i :: 0 <= i < |table| && table[i] == 0
  }

  /** Filling a free slot hides nothing. */
  lemma StillFindable(table: seq<nat>, i: nat, key: nat, text: seq<Byte>)
    requires |table| == SEEN && i < SEEN && table[i] == 0 && key > 0 && Findable(table, text)
    ensures Findable(table[i := key], text)
  {
    var p: nat :| FoundAt(table, text, p);
    assert FoundAt(table[i := key], text, p);
  }

  /** Occupied slots. */
  ghost function Used(table: seq<nat>): (n: nat)
    ensures n <= |table|
  {
    if table == [] then 0 else Used(table[..|table| - 1]) + (if table[|table| - 1] == 0 then 0 else 1)
  }

  lemma {:induction false} UsedAfter(table: seq<nat>, i: nat, key: nat)
    requires i < |table|
    ensures Used(table[i := key]) <= Used(table) + 1
  {
    var n := |table| - 1;
    if i < n {
      UsedAfter(table[..n], i, key);
      assert table[i := key][..n] == table[..n][i := key];
    } else {
      assert table[i := key][..n] == table[..n];
    }
  }

  lemma {:induction false} RoomMeansFree(table: seq<nat>)
    requires Used(table) < |table|
    ensures HasFree(table)
  {
    var n := |table| - 1;
    if table[n] != 0 {
      RoomMeansFree(table[..n]);
      var i :| 0 <= i < |table[..n]| && table[..n][i] == 0;
      assert table[i] == 0;
    }
  }

  /** Probing goes through every slot. */
  lemma ProbesEverySlot(text: seq<Byte>, i: nat)
    requires i < SEEN
    ensures exists p: nat :: p < SEEN && Slot(text, p) == i
  {
    var home := Hash(text) % SEEN;
    var p := if home <= i then i - home else i + SEEN - home;
    assert Slot(text, p) == i;
  }

  /** The probe loop: a duplicate, or the key put in the first free slot, or a full table. */
  method Probe(table: array<nat>, text: seq<Byte>) returns (dup: bool)
    requires table.Length == SEEN
    modifies table
    ensures dup ==> table[..] == old(table[..])
    ensures old(HasFree(table[..])) ==> Findable(table[..], text)
    ensures forall t | old(Findable(table[..], t)) :: Findable(table[..], t)
    ensures dup <==> old(Findable(table[..], text))
    ensures forall i | 0 <= i < SEEN :: table[i] == old(table[i]) || table[i] == Key(text)
    ensures Used(table[..]) <= Used(old(table[..])) + 1
  {
    var h := HashSpan(text);
    var key := if h % 2 == 0 then h + 1 else h;
    ghost var before := table[..];
    dup := false;
    var p := 0;
    while p < SEEN
      invariant 0 <= p <= SEEN && table[..] == before
      invariant forall q: nat | q < p :: before[Slot(text, q)] != 0 && before[Slot(text, q)] != key
    {
      var idx := (h % SEEN + p) % SEEN;
      assert idx == Slot(text, p);
      if table[idx] == 0 {
        table[idx] := key;
        assert table[..] == before[idx := key];
        UsedAfter(before, idx, key);
        assert FoundAt(table[..], text, p);
        forall t | Findable(before, t) ensures Findable(table[..], t) {
          StillFindable(before, idx, key, t);
        }
        return;
      }
      if table[idx] == key {
        assert FoundAt(before, text, p);
        return true;
      }
      p := p + 1;
    }
    if HasFree(before) {
      var i :| 0 <= i < |before| && before[i] == 0;
      ProbesEverySlot(text, i);
      assert false;
    }
  }

  // ----- the buffer -----

  /** The kept tokens with one space between them. */
  function Join(tokens: seq<seq<Byte>>): seq<Byte> {
    if tokens == [] then []
    else if |tokens| == 1 then tokens[0]
    else Join(tokens[..|tokens| - 1]) + [SPACE] + tokens[|tokens| - 1]
  }

  ghost predicate Short(tokens: seq<seq<Byte>>) {
    forall i | 0 <= i < |tokens| :: 0 < |tokens[i]| < MAX_LEN
  }

  ghost predicate InTable(table: seq<nat>, tokens: seq<seq<Byte>>)
    requires |table| == SEEN
  {
    forall i | 0 <= i < |tokens| :: Findable(table, tokens[i])
  }

  lemma OneMore(table: seq<nat>, tokens: seq<seq<Byte>>, text: seq<Byte>)
    requires |table| == SEEN
    ensures NoRepeats(tokens) && text !in tokens ==> NoRepeats(tokens + [text])
    ensures Short(tokens) && 0 < |text| < MAX_LEN ==> Short(tokens + [text])
    ensures InTable(table, tokens) && Findable(table, text) ==> InTable(table, tokens + [text])
  {
  }

  /** `memcpy` of a text to position pos. */
  method Spell(buf: array<Byte>, pos: nat, text: seq<Byte>) returns (pos': nat)
    requires pos + |text| <= buf.Length
    modifies buf
    ensures pos' == pos + |text| && buf[..pos'] == old(buf[..pos]) + text
  {
    for i := 0 to |text|
      invariant buf[..pos + i] == old(buf[..pos]) + text[..i]
    {
      buf[pos + i] := text[i];
      assert text[..i + 1] == text[..i] + [text[i]];
    }
    assert text[..|text|] == text;
    pos' := pos + |text|;
  }

  class TokenBuffer {
    const buf: array<Byte>
    const seen: array<nat>
    var pos: nat
    var count: nat
    ghost var tokens: seq<seq<Byte>>
    ghost var neverFull: bool

    /** The buffer spells the kept tokens and has room for a terminator. */
    ghost predicate Spelled()
      reads this, buf
    {
      && buf.Length == BUF && pos < BUF && count == |tokens|
      && Short(tokens) && buf[..pos] == Join(tokens)
    }

    /** While no new identifier met a full table, every kept token is in it and none is kept twice. */
    ghost predicate Indexed()
      reads this, seen
    {
      seen.Length == SEEN && (neverFull ==> NoRepeats(tokens) && InTable(seen[..], tokens))
    }

    ghost predicate Valid()
      reads this, buf, seen
    {
      buf as object != seen && Spelled() && Indexed()
    }

    constructor ()
      ensures Valid() && tokens == [] && neverFull && fresh(buf) && fresh(seen)
      ensures forall i | 0 <= i < SEEN :: seen[i] == 0
    {
      buf := new Byte[BUF](_ => 0);
      seen := new nat[SEEN](_ => 0);
      pos, count, tokens, neverFull := 0, 0, [], true;
    }

    /** Store a token behind a space, or alone if it is the first. */
    method Append(text: seq<Byte>)
      requires Spelled() && 0 < |text| < MAX_LEN && pos + |text| + 1 < BUF
      modifies this`pos, this`count, this`tokens, buf
      ensures Spelled() && tokens == old(tokens) + [text] && old(pos) < pos
    {
      JoinSnoc(tokens, text);
      var piece := if pos > 0 then [SPACE] + text else text;
      pos := Spell(buf, pos, piece);
      count, tokens := count + 1, tokens + [text];
    }

    /** `try_append_ident` */
    method TryAppend(text: seq<Byte>) returns (appended: bool)
      requires Valid() && 0 < |text| < MAX_LEN
      modifies this, buf, seen
      ensures Valid()
      ensures tokens == if appended then old(tokens) + [text] else old(tokens)
      ensures neverFull <==> old(neverFull) && old(HasFree(seen[..]) || Findable(seen[..], text))
      ensures old(HasFree(seen[..])) ==> Findable(seen[..], text)
      ensures forall t | old(Findable(seen[..], t)) :: Findable(seen[..], t)
      ensures old(Findable(seen[..], text)) ==> seen[..] == old(seen[..])
      ensures appended <==> !old(Findable(seen[..], text)) && old(pos) + |text| + 1 < BUF
      ensures old(pos) <= pos
      ensures forall i | 0 <= i < SEEN :: seen[i] == old(seen[i]) || seen[i] == Key(text)
      ensures Used(seen[..]) <= Used(old(seen[..])) + 1
    {
      neverFull := neverFull && (HasFree(seen[..]) || Findable(seen[..], text));
      ghost var table := seen[..];
      assert neverFull && text in tokens ==> Findable(table, text);
      var dup := Probe(seen, text);
      if dup || pos + |text| + 1 >= BUF {
        return false;
      }
      OneMore(seen[..], tokens, text);
      Append(text);
      return true;
    }
  }

  lemma {:induction false} JoinNonEmpty(tokens: seq<seq<Byte>>)
    requires tokens != [] && forall i | 0 <= i < |tokens| :: 0 < |tokens[i]|
    ensures Join(tokens) != []
  {
  }

  lemma JoinSnoc(tokens: seq<seq<Byte>>, text: seq<Byte>)
    requires forall i | 0 <= i < |tokens| :: 0 < |tokens[i]|
    ensures Join(tokens + [text]) == if tokens == [] then text else Join(tokens) + [32] + text
    ensures Join(tokens) == [] <==> tokens == []
  {
    assert (tokens + [text])[..|tokens + [text]| - 1] == tokens;
    assert Join(tokens) + [SPACE] + text == Join(tokens) + ([SPACE] + text);
    if tokens != [] {
      JoinNonEmpty(tokens);
    }
  }

  /** How far the loop has come: what holds of the texts offered so far. */
  ghost predicate Taking(offers: seq<seq<Byte>>, offered: set<seq<Byte>>, table: seq<nat>, neverFull: bool,
                         tokens: seq<seq<Byte>>, pos: nat)
    requires |table| == SEEN
  {
    && offered <= Different(offers)
    && (|Different(offers)| <= SEEN ==> neverFull && Recorded(table, offered))
    && KeysFrom(table, offered)
    && AllAccounted(offers, offered, tokens, pos)
    && forall i | 0 <= i < |tokens| :: tokens[i] in offered
  }

  /** One identifier of the body. */
  method Offer(b: TokenBuffer, id: seq<Byte>, ghost offers: seq<seq<Byte>>, ghost offered: set<seq<Byte>>)
    returns (appended: bool)
    requires b.Valid() && 0 < |id| < MAX_LEN && id in offers
    requires Taking(offers, offered, b.seen[..], b.neverFull, b.tokens, b.pos)
    modifies b, b.buf, b.seen
    ensures b.Valid() && Taking(offers, offered + {id}, b.seen[..], b.neverFull, b.tokens, b.pos)
    ensures b.tokens == if appended then old(b.tokens) + [id] else old(b.tokens)
  {
    ghost var before, tokens, pos := b.seen[..], b.tokens, b.pos;
    RoomForNew(before, offers, offered, id);
    appended := b.TryAppend(id);
    if |Different(offers)| <= SEEN {
      RecordedStep(before, b.seen[..], offered, id);
    }
    KeysStep(before, b.seen[..], offered, id);
    AccountStep(before, offers, offered, tokens, pos, id, appended, b.tokens, b.pos);
  }

  // ----- nothing is left out without a reason -----

  ghost predicate KeyFrom(offered: set<seq<Byte>>, key: nat) {
    exists t :: t in offered && Key(t) == key
  }

  /** Every occupied slot holds the key of a text offered. */
  ghost predicate KeysFrom(table: seq<nat>, offered: set<seq<Byte>>) {
    forall i | 0 <= i < |table| :: table[i] == 0 || KeyFrom(offered, table[i])
  }

  lemma KeysStep(before: seq<nat>, after: seq<nat>, offered: set<seq<Byte>>, id: seq<Byte>)
    requires |before| == |after| && KeysFrom(before, offered)
    requires forall i | 0 <= i < |after| :: after[i] == before[i] || after[i] == Key(id)
    ensures KeysFrom(after, offered + {id})
  {
    forall i | 0 <= i < |after| && after[i] != 0 ensures KeyFrom(offered + {id}, after[i]) {
      if after[i] == Key(id) {
        assert id in offered + {id};
      } else {
        var t :| t in offered && Key(t) == before[i];
        assert t in offered + {id};
      }
    }
  }

  /** A different text offered has the same key. */
  ghost predicate Collides(offers: seq<seq<Byte>>, o: seq<Byte>) {
    exists t :: t in offers && t != o && Key(t) == Key(o)
  }

  /** Text o is kept, or there is a reason why not: 40 tokens, no room, or a colliding key. */
  ghost predicate Accounted(offers: seq<seq<Byte>>, o: seq<Byte>, tokens: seq<seq<Byte>>, pos: nat) {
    o in tokens || |tokens| >= 40 || pos + |o| + 1 >= 512 || Collides(offers, o)
  }

  ghost predicate AllAccounted(offers: seq<seq<Byte>>, offered: set<seq<Byte>>, tokens: seq<seq<Byte>>, pos: nat) {
    forall o | o in offered :: Accounted(offers, o, tokens, pos)
  }

  lemma AccountStep(table: seq<nat>, offers: seq<seq<Byte>>, offered: set<seq<Byte>>, tokens: seq<seq<Byte>>, pos: nat,
                    id: seq<Byte>, appended: bool, tokens': seq<seq<Byte>>, pos': nat)
    requires |table| == SEEN && offered <= Different(offers) && KeysFrom(table, offered)
    requires AllAccounted(offers, offered, tokens, pos) && pos <= pos'
    requires tokens' == if appended then tokens + [id] else tokens
    requires appended <==> !Findable(table, id) && pos + |id| + 1 < BUF
    ensures AllAccounted(offers, offered + {id}, tokens', pos')
  {
    forall o | o in offered ensures Accounted(offers, o, tokens', pos') {
      assert Accounted(offers, o, tokens, pos);
    }
    if Findable(table, id) && id !in offered {
      var p: nat :| FoundAt(table, id, p);
      assert KeyFrom(offered, table[Slot(id, p)]);
      var t :| t in offered && Key(t) == Key(id);
      assert t in Different(offers);
      assert Collides(offers, id);
    }
    assert appended ==> tokens'[|tokens|] == id;
  }

  lemma RecordedStep(before: seq<nat>, after: seq<nat>, offered: set<seq<Byte>>, id: seq<Byte>)
    requires |before| == |after| == SEEN && Recorded(before, offered)
    requires HasFree(before) || id in offered
    requires HasFree(before) ==> Findable(after, id)
    requires forall t | Findable(before, t) :: Findable(after, t)
    requires Findable(before, id) ==> after == before
    requires Used(after) <= Used(before) + 1
    ensures Recorded(after, offered + {id})
  {
    if id in offered {
      assert offered + {id} == offered;
      assert after == before;
    } else {
      assert |offered + {id}| == |offered| + 1;
      forall t | t in offered + {id} ensures Findable(after, t) {
        assert t == id || Findable(before, t);
      }
    }
  }

  // ----- the walk -----

  predicate IsIdentifier(kind: string) {
    kind == "identifier" || kind == "field_identifier" || kind == "property_identifier"
  }

  /** A node of a tree over this source spans some of its bytes. */
  predicate Spans(source: seq<Byte>, n: Node) {
    n.start <= n.end <= |source|
  }

  /** The text a node offers, if any: that of an identifier leaf of one to 63 bytes. */
  function Offered(source: seq<Byte>, n: Node): (r: seq<seq<Byte>>)
    ensures |r| <= 1 && forall t | t in r :: 0 < |t| < MAX_LEN
  {
    if n.children == [] && IsIdentifier(n.kind) && Spans(source, n) && 0 < n.end - n.start < MAX_LEN
    then [source[n.start..n.end]] else []
  }

  /** The texts a sequence of visits offers. */
  ghost function Offers(source: seq<Byte>, ns: seq<Node>): seq<seq<Byte>> {
    if ns == [] then [] else Offered(source, ns[0]) + Offers(source, ns[1..])
  }

  /** Offered is exactly the text of each leaf that is an identifier of one to 63 bytes ... */
  lemma {:induction false} OffersExact(source: seq<Byte>, ns: seq<Node>, t: seq<Byte>)
    ensures t in Offers(source, ns) <==>
            exists i :: && 0 <= i < |ns| && ns[i].children == []
                        && (ns[i].kind == "identifier" || ns[i].kind == "field_identifier" || ns[i].kind == "property_identifier")
                        && ns[i].start < ns[i].end <= |source| && ns[i].end - ns[i].start < 64
                        && t == source[ns[i].start..ns[i].end]
  {
    if ns != [] {
      OffersExact(source, ns[1..], t);
      assert ns == [ns[0]] + ns[1..];
    }
  }

  /** ... in the order of the visits. */
  lemma {:induction false} OffersInOrder(source: seq<Byte>, ns: seq<Node>, ms: seq<Node>)
    ensures Offers(source, ns + ms) == Offers(source, ns) + Offers(source, ms)
  {
    if ns != [] {
      assert (ns + ms)[1..] == ns[1..] + ms;
      OffersInOrder(source, ns[1..], ms);
    } else {
      assert ns + ms == ms;
    }
  }

  /** The texts still to be offered from a stack. */
  ghost function ToCome(source: seq<Byte>, stack: seq<Node>): seq<seq<Byte>>
    requires |stack| <= WALK_CAP
  {
    Offers(source, CappedVisits(stack, WALK_CAP))
  }

  lemma ToComeStep(source: seq<Byte>, done: seq<seq<Byte>>, rest: seq<Node>, n: Node)
    requires |rest| < WALK_CAP
    ensures done + ToCome(source, rest + [n]) ==
            done + Offered(source, n) + ToCome(source, WithChildren(rest, n.children, WALK_CAP))
  {
    VisitsStep(rest, n, WALK_CAP);
    var later := CappedVisits(WithChildren(rest, n.children, WALK_CAP), WALK_CAP);
    assert ([n] + later)[1..] == later;
  }

  lemma OfferedNext(all: seq<seq<Byte>>, done: seq<seq<Byte>>, now: seq<seq<Byte>>, later: seq<seq<Byte>>)
    requires all == done + now + later && |now| == 1
    ensures now[0] in all && Different(done + now) == Different(done) + {now[0]}
  {
    assert all[|done|] == now[0];
    assert now == [now[0]];
  }

  /** The leaf branch of the loop. */
  method VisitLeaf(b: TokenBuffer, source: seq<Byte>, n: Node, ghost all: seq<seq<Byte>>, ghost done: seq<seq<Byte>>,
                   ghost later: seq<seq<Byte>>)
    requires b.Valid() && n.children == [] && Spans(source, n) && all == done + Offered(source, n) + later
    requires Taking(all, Different(done), b.seen[..], b.neverFull, b.tokens, b.pos)
    modifies b, b.buf, b.seen
    ensures b.Valid() && b.count <= old(b.count) + 1
    ensures Taking(all, Different(done + Offered(source, n)), b.seen[..], b.neverFull, b.tokens, b.pos)
    ensures old(Sub(b.tokens, done)) ==> Sub(b.tokens, done + Offered(source, n))
  {
    if Sub(b.tokens, done) {
      SubBefore(b.tokens, done, Offered(source, n));
    }
    if IsIdentifier(n.kind) {
      var len := n.end - n.start;
      if len > 0 && len < MAX_LEN && n.start < |source| {
        OfferedNext(all, done, Offered(source, n), later);
        var _ := Offer(b, source[n.start..n.end], all, Different(done));
        return;
      }
    }
    assert done + [] == done;
  }

  /** Where the walk stands: the texts offered so far and those to come are all the texts. */
  ghost predicate AtNode(source: seq<Byte>, all: seq<seq<Byte>>, done: seq<seq<Byte>>, stack: seq<Node>) {
    && |stack| <= WALK_CAP
    && all == done + ToCome(source, stack)
    && forall n | n in CappedVisits(stack, WALK_CAP) :: Spans(source, n)
  }

  lemma AtNodeStep(source: seq<Byte>, all: seq<seq<Byte>>, done: seq<seq<Byte>>, rest: seq<Node>, n: Node)
    requires |rest| < WALK_CAP && AtNode(source, all, done, rest + [n])
    ensures Spans(source, n) && AtNode(source, all, done + Offered(source, n), WithChildren(rest, n.children, WALK_CAP))
    ensures Weight(WithChildren(rest, n.children, WALK_CAP)) < Weight(rest + [n])
    ensures n.children == [] ==> WithChildren(rest, n.children, WALK_CAP) == rest
    ensures n.children != [] ==> done + Offered(source, n) == done
  {
    ToComeStep(source, done, rest, n);
    VisitsStep(rest, n, WALK_CAP);
    WeightFalls(rest, n, WALK_CAP);
  }

  /** One round of the loop. */
  method VisitNext(b: TokenBuffer, stack: CappedStack<Node>, source: seq<Byte>, ghost all: seq<seq<Byte>>, ghost done: seq<seq<Byte>>)
    returns (ghost done': seq<seq<Byte>>)
    requires b.Valid() && stack.Valid() && stack.top > 0 && stack.cap == WALK_CAP
    requires stack.items as object != b.buf && stack.items as object != b.seen
    requires Taking(all, Different(done), b.seen[..], b.neverFull, b.tokens, b.pos)
    requires AtNode(source, all, done, stack.Contents()) && Sub(b.tokens, done)
    modifies b, b.buf, b.seen, stack`top, stack.items
    ensures b.Valid() && stack.Valid() && b.count <= old(b.count) + 1
    ensures Taking(all, Different(done'), b.seen[..], b.neverFull, b.tokens, b.pos)
    ensures AtNode(source, all, done', stack.Contents()) && Weight(stack.Contents()) < Weight(old(stack.Contents()))
    ensures Sub(b.tokens, done')
  {
    var n := stack.Pop();
    ghost var rest := stack.Contents();
    AtNodeStep(source, all, done, rest, n);
    done' := done + Offered(source, n);
    if |n.children| == 0 {
      VisitLeaf(b, source, n, all, done, ToCome(source, rest));
    } else {
      stack.PushChildren(n.children);
    }
  }

  /** What the walk leaves behind: texts in the order offered, each of them kept or left out for a reason. */
  ghost predicate Collected(all: seq<seq<Byte>>, tokens: seq<seq<Byte>>, pos: nat) {
    && Sub(tokens, all)
    && (|Different(all)| <= 128 ==> NoRepeats(tokens))
    && (forall i | 0 <= i < |all| :: Accounted(all, all[i], tokens, pos))
  }

  lemma WalkDone(all: seq<seq<Byte>>, done: seq<seq<Byte>>, later: seq<seq<Byte>>, b: TokenBuffer)
    requires b.Valid() && all == done + later && (later == [] || b.count >= MAX_IDENTS)
    requires Taking(all, Different(done), b.seen[..], b.neverFull, b.tokens, b.pos) && Sub(b.tokens, done)
    ensures Collected(all, b.tokens, b.pos)
  {
    SubBefore(b.tokens, done, later);
    forall i | 0 <= i < |all| ensures Accounted(all, all[i], b.tokens, b.pos) {
      if later == [] {
        assert all[i] in Different(done);
      }
    }
  }

  /**
   `extract_body_ident_tokens`. Of the identifiers that the 512-entry walk of the body meets, at
   most 40 are kept, in the order met, in a buffer that always has room for its terminator; none is kept twice if at
   most 128 different ones are met, however often each of them is; and each is kept unless the
   tokens or the room ran out or another one has the same hash key. An empty text stands for null.
   */
  method BodyTokens(source: seq<Byte>, body: Node) returns (text: seq<Byte>, ghost tokens: seq<seq<Byte>>)
    requires forall n | n in CappedVisits([body], WALK_CAP) :: Spans(source, n)
    ensures text == Join(tokens) && |text| < 512 && |tokens| <= 40
    ensures forall i | 0 <= i < |tokens| :: 0 < |tokens[i]| < 64
    ensures Collected(Offers(source, CappedVisits([body], 512)), tokens, |text|)
  {
    var b := new TokenBuffer();
    EmptyTable(b.seen[..]);
    var stack := new CappedStack<Node>(body, WALK_CAP);
    ghost var all, done := Offers(source, CappedVisits([body], WALK_CAP)), [];
    while stack.top > 0 && b.count < MAX_IDENTS
      invariant b.Valid() && b.count <= MAX_IDENTS && fresh(b) && fresh(b.buf) && fresh(b.seen)
      invariant stack.Valid() && stack.cap == WALK_CAP && fresh(stack) && fresh(stack.items)
      invariant stack.items as object != b.buf && stack.items as object != b.seen
      invariant Taking(all, Different(done), b.seen[..], b.neverFull, b.tokens, b.pos)
      invariant AtNode(source, all, done, stack.Contents()) && Sub(b.tokens, done)
      decreases Weight(stack.Contents())
    {
      done := VisitNext(b, stack, source, all, done);
    }
    WalkDone(all, done, ToCome(source, stack.Contents()), b);
    text, tokens := b.buf[..b.pos], b.tokens;
  }

  ghost function Different(offers: seq<seq<Byte>>): set<seq<Byte>> {
    set t | t in offers
  }

  /** Every text offered can be found again, and each takes up at most one slot. */
  ghost predicate Recorded(table: seq<nat>, offered: set<seq<Byte>>)
    requires |table| == SEEN
  {
    Used(table) <= |offered| && forall t | t in offered :: Findable(table, t)
  }

  /** With at most 128 different texts, one not offered before finds a free slot. */
  lemma RoomForNew(table: seq<nat>, offers: seq<seq<Byte>>, offered: set<seq<Byte>>, id: seq<Byte>)
    requires |table| == SEEN && offered <= Different(offers) && id in offers
    ensures Recorded(table, offered) && id !in offered && |Different(offers)| <= SEEN ==> HasFree(table)
  {
    if Recorded(table, offered) && id !in offered && |Different(offers)| <= SEEN {
      Smaller(offered + {id}, Different(offers));
      RoomMeansFree(table);
    }
  }

  lemma {:induction false} Smaller(a: set<seq<Byte>>, b: set<seq<Byte>>)
    requires a <= b
    ensures |a| <= |b|
  {
    if a != {} {
      var x :| x in a;
      Smaller(a - {x}, b - {x});
    }
  }

  lemma {:induction false} EmptyTable(table: seq<nat>)
    requires forall i | 0 <= i < |table| :: table[i] == 0
    ensures Used(table) == 0
  {
    if table != [] {
      EmptyTable(table[..|table| - 1]);
    }
  }
}

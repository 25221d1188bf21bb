/**
 Decompress-and-scan: the reusable thread-local buffer, `cbm_ac_scan_lz4_bitmask` and
 `cbm_ac_scan_lz4_batch`. The decompressor is a parameter: a function from compressed bytes and
 capacity to either a failure or at most that many bytes.
 */
module AcLz4 {
  import opened Prelude
  import opened AcSpec
  import opened AcAutomaton
  import opened AcScan
  import opened Word64

  type Decompressor = (seq<Byte>, nat) -> Option<seq<Byte>>

  ghost predicate Bounded(lz4: Decompressor) {
    forall d, capacity :: lz4(d, capacity).Some? ==> |lz4(d, capacity).value| <= capacity
  }

  const CHUNK: nat := 0x1_0000

  datatype Entry = Entry(data: Option<seq<Byte>>, compressedLen: int, originalLen: int) {
    /** The caller's promise: `compressed_len` bytes are there. */
    ghost predicate Readable() {
      data.Some? ==> compressedLen <= |data.value|
    }

    predicate Usable() {
      data.Some? && compressedLen > 0 && originalLen > 0
    }
  }

  datatype Lz4Match = Lz4Match(fileIndex: nat, bitmask: Word)

  /** What an entry's contents say about every pattern; nothing if it cannot be decompressed. */
  ghost function EntryMask(pats: seq<Str>, alphaMap: seq<nat>, lz4: Decompressor, e: Entry): Word
    requires e.Readable() && |alphaMap| == BYTE_RANGE
  {
    if !e.Usable() then Zero()
    else match lz4(e.data.value[..e.compressedLen], e.originalLen)
      case None => Zero()
      case Some(text) => MaskOf(pats, MapText(alphaMap, text))
  }

  /** Entry e has data and two positive lengths, and its contents are this text. */
  ghost predicate Contains(lz4: Decompressor, e: Entry, text: seq<Byte>)
    requires e.Readable()
  {
    && e.data.Some? && e.compressedLen > 0 && e.originalLen > 0
    && lz4(e.data.value[..e.compressedLen], e.originalLen) == Some(text)
  }

  /** Bit p is set exactly when the entry's contents hold pattern p. */
  lemma EntryBits(pats: seq<Str>, alphaMap: seq<nat>, lz4: Decompressor, e: Entry, p: nat)
    requires e.Readable() && |alphaMap| == BYTE_RANGE && p < 64
    ensures EntryMask(pats, alphaMap, lz4, e)[p] <==>
            p < |pats| && exists text :: Contains(lz4, e, text) && Found(pats, pats[p], MapText(alphaMap, text))
    ensures p < |pats| && pats[p] != [] ==>
              (EntryMask(pats, alphaMap, lz4, e)[p] <==>
               exists text :: Contains(lz4, e, text) && Occurs(pats[p], MapText(alphaMap, text)))
  {
    if e.data.Some? && e.compressedLen > 0 && e.originalLen > 0 {
      var out := lz4(e.data.value[..e.compressedLen], e.originalLen);
      if out.Some? {
        assert Contains(lz4, e, out.value);
        if p < |pats| {
          OccurrenceLaw(pats, pats[p], MapText(alphaMap, out.value));
        }
      }
    }
  }

  class DecompBuffer {
    var buf: array?<Byte>
    var cap: nat

    ghost predicate Valid()
      reads this
    {
      buf != null ==> buf.Length == cap
    }

    /** No allocation has failed so far: a positive capacity is really there. */
    ghost predicate Healthy()
      reads this
    {
      cap > 0 ==> buf != null
    }

    constructor ()
      ensures Valid() && Healthy() && buf == null && cap == 0
    {
      buf, cap := null, 0;
    }

    /** `get_decomp_buf`; `mallocOk` says whether an allocation made by this call succeeds. */
    method Get(needed: int, mallocOk: bool) returns (b: array?<Byte>)
      requires Valid()
      modifies this
      ensures Valid() && b == buf && needed <= cap && old(cap) <= cap
      ensures b != null ==> needed <= b.Length
      ensures b == null <==> if needed > old(cap) then !mallocOk else old(buf) == null
      ensures b != null ==> b == old(buf) || fresh(b)
      ensures needed <= old(cap) ==> cap == old(cap) && buf == old(buf)
      ensures needed > old(cap) ==> cap % 65536 == 0 && cap < needed + 65536
    {
      if needed > cap {
        var rounded := (needed + (CHUNK - 1)) / CHUNK * CHUNK;
        if mallocOk {
          buf := new Byte[rounded];
        } else {
          buf := null;
        }
        cap := rounded;
      }
      b := buf;
    }
  }

  /** `cbm_lz4_decompress` into a buffer: -1 on failure, else the number of bytes stored. */
  method Decompress(lz4: Decompressor, data: seq<Byte>, b: array<Byte>, capacity: nat) returns (n: int)
    requires Bounded(lz4) && capacity <= b.Length
    modifies b
    ensures n < 0 <==> lz4(data, capacity).None?
    ensures 0 <= n ==> n <= b.Length && b[..n] == lz4(data, capacity).value
  {
    match lz4(data, capacity)
    case None =>
      n := -1;
    case Some(text) =>
      n := |text|;
      for i := 0 to n
        invariant b[..i] == text[..i]
      {
        b[i] := text[i];
      }
  }

  lemma EmptyTextMask(pats: seq<Str>)
    ensures MaskOf(pats, []) == Zero()
  {
    forall p | 0 <= p < WIDTH ensures !MaskOf(pats, [])[p] {
      if p < |pats| && pats[p] != [] {
        assert forall i: nat :: !OccursAt(pats[p], [], i);
      }
    }
  }

  /** The buffer is not part of the automaton. */
  ghost predicate Separate(ac: Automaton, b: array?<Byte>)
    reads ac
  {
    b != null ==>
      b as object != ac.goTable && b as object != ac.output && b as object != ac.outputNext
  }

  /** Decompress one entry into the buffer and scan what came out. */
  method ScanEntry(ac: Automaton, b: array<Byte>, lz4: Decompressor, e: Entry) returns (result: Word)
    requires ac.Valid() && Separate(ac, b) && Bounded(lz4)
    requires e.Readable() && e.Usable() && e.originalLen <= b.Length
    modifies b
    ensures result == EntryMask(ac.pats, ac.alphaMap, lz4, e)
  {
    var n := Decompress(lz4, e.data.value[..e.compressedLen], b, e.originalLen);
    if n < 0 {
      return Zero();
    }
    result := ScanBitmask(ac, b[..n]);
  }

  /** The same inside the batch loop, where an empty result is skipped instead of scanned. */
  method ScanBatchEntry(ac: Automaton, b: array<Byte>, lz4: Decompressor, e: Entry) returns (result: Word)
    requires ac.Valid() && Separate(ac, b) && Bounded(lz4)
    requires e.Readable() && e.originalLen <= b.Length
    modifies b
    ensures result == EntryMask(ac.pats, ac.alphaMap, lz4, e)
  {
    if !e.Usable() {
      return Zero();
    }
    var n := Decompress(lz4, e.data.value[..e.compressedLen], b, e.originalLen);
    if n <= 0 {
      EmptyTextMask(ac.pats);
      assert MapText(ac.alphaMap, []) == [];
      return Zero();
    }
    result := ScanBitmask(ac, b[..n]);
  }

  /** `cbm_ac_scan_lz4_bitmask` */
  method ScanLz4Bitmask(ac: Automaton?, tls: DecompBuffer, lz4: Decompressor, e: Entry, mallocOk: bool)
    returns (result: Word)
    requires tls.Valid() && Bounded(lz4) && e.Readable()
    requires ac != null ==> ac.Valid() && Separate(ac, tls.buf)
    modifies tls, tls.buf
    ensures tls.Valid()
    ensures mallocOk && old(tls.Healthy()) ==> tls.Healthy()
    ensures mallocOk && old(tls.Healthy()) && ac != null ==> result == EntryMask(ac.pats, ac.alphaMap, lz4, e)
    ensures ac == null || e.data.None? || e.compressedLen <= 0 || e.originalLen <= 0 ==> result == Zero()
    ensures ac != null && e.data.Some? && e.compressedLen > 0 && e.originalLen > 0 ==>
              result == if tls.buf == null then Zero() else EntryMask(ac.pats, ac.alphaMap, lz4, e)
  {
    if ac == null || !e.Usable() {
      return Zero();
    }
    var b := tls.Get(e.originalLen, mallocOk);
    if b == null {
      return Zero();
    }
    result := ScanEntry(ac, b, lz4, e);
  }

  ghost predicate AllReadable(es: seq<Entry>) {
    forall i | 0 <= i < |es| :: es[i].Readable()
  }

  /** The non-zero masks of entries i.. with their positions. */
  ghost function Hits(pats: seq<Str>, alphaMap: seq<nat>, lz4: Decompressor, es: seq<Entry>, i: nat): seq<Lz4Match>
    requires |alphaMap| == BYTE_RANGE && AllReadable(es) && i <= |es|
    decreases |es| - i
  {
    if i == |es| then []
    else Kept(i, EntryMask(pats, alphaMap, lz4, es[i])) + Hits(pats, alphaMap, lz4, es, i + 1)
  }

  ghost predicate SomeBit(mask: Word) {
    exists p :: 0 <= p < 64 && mask[p]
  }

  lemma NotZero(mask: Word)
    ensures mask != Zero() <==> SomeBit(mask)
  {
    if !SomeBit(mask) {
      assert mask == Zero();
    }
  }

  lemma KeptExact(i: nat, mask: Word, h: Lz4Match)
    ensures h in Kept(i, mask) <==> h.fileIndex == i && h.bitmask == mask && SomeBit(mask)
  {
    NotZero(mask);
  }

  /** Reported is exactly every entry with a bit set, under its place and with its mask ... */
  lemma {:induction false} HitsExact(pats: seq<Str>, alphaMap: seq<nat>, lz4: Decompressor, es: seq<Entry>, i: nat, h: Lz4Match)
    requires |alphaMap| == BYTE_RANGE && AllReadable(es) && i <= |es|
    ensures h in Hits(pats, alphaMap, lz4, es, i) <==>
            i <= h.fileIndex < |es| && h.bitmask == EntryMask(pats, alphaMap, lz4, es[h.fileIndex]) && SomeBit(h.bitmask)
    decreases |es| - i
  {
    if i < |es| {
      HitsExact(pats, alphaMap, lz4, es, i + 1, h);
      KeptExact(i, EntryMask(pats, alphaMap, lz4, es[i]), h);
    }
  }

  /** ... in the order of the entries. */
  lemma {:induction false} HitsInOrder(pats: seq<Str>, alphaMap: seq<nat>, lz4: Decompressor, es: seq<Entry>, i: nat)
    requires |alphaMap| == BYTE_RANGE && AllReadable(es) && i <= |es|
    ensures forall j, k | 0 <= j < k < |Hits(pats, alphaMap, lz4, es, i)| ::
              Hits(pats, alphaMap, lz4, es, i)[j].fileIndex < Hits(pats, alphaMap, lz4, es, i)[k].fileIndex
    decreases |es| - i
  {
    if i < |es| {
      var first, rest := Kept(i, EntryMask(pats, alphaMap, lz4, es[i])), Hits(pats, alphaMap, lz4, es, i + 1);
      HitsInOrder(pats, alphaMap, lz4, es, i + 1);
      forall k | 0 <= k < |rest| ensures i < rest[k].fileIndex {
        HitsExact(pats, alphaMap, lz4, es, i + 1, rest[k]);
      }
      assert |first| <= 1 && Hits(pats, alphaMap, lz4, es, i) == first + rest;
    }
  }

  /** A zero mask is not reported. */
  function Kept(i: nat, mask: Word): seq<Lz4Match> {
    if mask == Zero() then [] else [Lz4Match(i, mask)]
  }

  ghost function Cut<X>(s: seq<X>, n: nat): (r: seq<X>)
    ensures r <= s && (r == s || |r| == n) && |r| <= n
  {
    if |s| < n then s else s[..n]
  }

  /** The largest original length, at least zero. */
  method LargestOriginal(es: seq<Entry>) returns (m: nat)
    ensures forall i | 0 <= i < |es| :: es[i].originalLen <= m
    ensures m == 0 || exists i :: 0 <= i < |es| && es[i].originalLen == m
  {
    m := 0;
    for i := 0 to |es|
      invariant forall k | 0 <= k < i :: es[k].originalLen <= m
      invariant m == 0 || exists k :: 0 <= k < i && es[k].originalLen == m
    {
      if es[i].originalLen > m {
        m := es[i].originalLen;
      }
    }
  }

  lemma KeepOne(found: seq<Lz4Match>, pats: seq<Str>, alphaMap: seq<nat>, lz4: Decompressor, es: seq<Entry>, i: nat)
    requires |alphaMap| == BYTE_RANGE && AllReadable(es) && i < |es|
    ensures found + Hits(pats, alphaMap, lz4, es, i) ==
            found + Kept(i, EntryMask(pats, alphaMap, lz4, es[i])) + Hits(pats, alphaMap, lz4, es, i + 1)
  {
  }

  /** One round of the batch loop. */
  method ScanNext(ac: Automaton, b: array<Byte>, lz4: Decompressor, e: Entry, i: nat, matches: seq<Lz4Match>)
    returns (matches': seq<Lz4Match>)
    requires ac.Valid() && Separate(ac, b) && Bounded(lz4)
    requires e.Readable() && e.originalLen <= b.Length
    modifies b
    ensures matches' == matches + Kept(i, EntryMask(ac.pats, ac.alphaMap, lz4, e))
  {
    matches' := matches;
    var result := ScanBatchEntry(ac, b, lz4, e);
    if result != Zero() {
      matches' := matches' + [Lz4Match(i, result)];
    }
  }

  /** The loop of the batch over a buffer that is large enough for every entry. */
  method ScanEntries(ac: Automaton, b: array<Byte>, lz4: Decompressor, es: seq<Entry>, maxMatches: nat)
    returns (matches: seq<Lz4Match>)
    requires ac.Valid() && Separate(ac, b) && Bounded(lz4) && AllReadable(es)
    requires forall i | 0 <= i < |es| :: es[i].originalLen <= b.Length
    modifies b
    ensures matches == Cut(Hits(ac.pats, ac.alphaMap, lz4, es, 0), maxMatches)
  {
    matches := [];
    ghost var pats, alphaMap := ac.pats, ac.alphaMap;
    var i := 0;
    while i < |es| && |matches| < maxMatches
      invariant 0 <= i <= |es| && |matches| <= maxMatches
      invariant matches + Hits(pats, alphaMap, lz4, es, i) == Hits(pats, alphaMap, lz4, es, 0)
    {
      KeepOne(matches, pats, alphaMap, lz4, es, i);
      matches := ScanNext(ac, b, lz4, es[i], i, matches);
      i := i + 1;
    }
  }

  /**
   `cbm_ac_scan_lz4_batch`: entry by entry what `ScanLz4Bitmask` computes, the zero masks left
   out, cut at the capacity; nothing of what earlier calls left in the buffer shows.
   */
  method ScanLz4Batch(ac: Automaton?, tls: DecompBuffer, lz4: Decompressor, es: seq<Entry>,
                      maxMatches: nat, mallocOk: bool)
    returns (matches: seq<Lz4Match>)
    requires tls.Valid() && Bounded(lz4) && AllReadable(es)
    requires ac != null ==> ac.Valid() && Separate(ac, tls.buf)
    modifies tls, tls.buf
    ensures tls.Valid()
    ensures mallocOk && old(tls.Healthy()) ==> tls.Healthy()
    ensures mallocOk && old(tls.Healthy()) && ac != null ==>
              matches == Cut(Hits(ac.pats, ac.alphaMap, lz4, es, 0), maxMatches)
    ensures ac == null || tls.buf == null ==> matches == []
    ensures ac != null && (tls.buf != null || (forall i | 0 <= i < |es| :: !es[i].Usable())) ==>
              matches == Cut(Hits(ac.pats, ac.alphaMap, lz4, es, 0), maxMatches)
  {
    if ac == null || |es| == 0 {
      return [];
    }
    var needed := LargestOriginal(es);
    var b := tls.Get(needed, mallocOk);
    if b == null {
      assert needed == 0 ==> forall i | 0 <= i < |es| :: !es[i].Usable();
      if forall i | 0 <= i < |es| :: !es[i].Usable() {
        NoHits(ac.pats, ac.alphaMap, lz4, es, 0);
      }
      return [];
    }
    matches := ScanEntries(ac, b, lz4, es, maxMatches);
  }

  lemma {:induction false} NoHits(pats: seq<Str>, alphaMap: seq<nat>, lz4: Decompressor, es: seq<Entry>, i: nat)
    requires |alphaMap| == BYTE_RANGE && AllReadable(es) && i <= |es|
    requires forall k | i <= k < |es| :: !es[k].Usable()
    ensures Hits(pats, alphaMap, lz4, es, i) == []
    decreases |es| - i
  {
    if i < |es| {
      NoHits(pats, alphaMap, lz4, es, i + 1);
    }
  }
}

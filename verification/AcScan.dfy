/** Scanning one text: `cbm_ac_scan_bitmask`, and what its bits mean. */
module AcScan {
  import opened Prelude
  import opened AcSpec
  import opened AcTables
  import opened AcBfs
  import opened AcAutomaton
  import opened Word64

  // ----- which words are states -----

  /** Every prefix of every pattern is a state. */
  lemma {:induction false} PrefixIsState(paths: seq<Str>, pats: seq<Str>, q: nat, k: nat)
    requires Paths(paths) && HasPatterns(paths, pats, |pats|) && q < |pats| && k <= |pats[q]|
    ensures pats[q][..k] in paths
    decreases |pats[q]| - k
  {
    if k == |pats[q]| {
      assert pats[q][..k] == pats[q];
    } else {
      PrefixIsState(paths, pats, q, k + 1);
      assert pats[q][..k + 1] == pats[q][..k] + [pats[q][k]];
      SnocIsPath(paths, pats[q][..k], pats[q][k]);
    }
  }

  /** The states are in bijection with the distinct prefixes of the mapped patterns. */
  lemma StatesArePrefixes(paths: seq<Str>, pats: seq<Str>, w: Str)
    requires Paths(paths) && HasPatterns(paths, pats, |pats|) && FromPatterns(paths, pats, |pats|)
    ensures w in paths <==> w == [] || PrefixOfSome(w, pats, |pats|)
    ensures forall s, t | 0 <= s < |paths| && 0 <= t < |paths| && paths[s] == paths[t] :: s == t
  {
    if w in paths && w != [] {
      var s :| 0 <= s < |paths| && paths[s] == w;
      assert PrefixOfSome(paths[s], pats, |pats|);
    }
    if PrefixOfSome(w, pats, |pats|) {
      var q :| 0 <= q < |pats| && w <= pats[q];
      PrefixIsState(paths, pats, q, |w|);
      assert pats[q][..|w|] == w;
    }
    forall s, t | 0 <= s < |paths| && 0 <= t < |paths| && paths[s] == paths[t] ensures s == t {
      SameState(paths, s, t);
    }
  }

  /** Symbol c is the first symbol of some pattern. */
  ghost predicate StartsPattern(pats: seq<Str>, c: nat) {
    exists q :: 0 <= q < |pats| && pats[q] != [] && pats[q][0] == c
  }

  lemma DepthOne(paths: seq<Str>, pats: seq<Str>, c: nat)
    requires Paths(paths) && HasPatterns(paths, pats, |pats|) && FromPatterns(paths, pats, |pats|)
    ensures [c] in paths <==> StartsPattern(pats, c)
  {
    StatesArePrefixes(paths, pats, [c]);
    if PrefixOfSome([c], pats, |pats|) {
      var q :| 0 <= q < |pats| && [c] <= pats[q];
      assert pats[q][0] == c;
    }
    if StartsPattern(pats, c) {
      var q :| 0 <= q < |pats| && pats[q] != [] && pats[q][0] == c;
      assert [c] <= pats[q];
    }
  }

  // ----- what a scan reports -----

  /** Some symbol of t starts no pattern. */
  ghost predicate HasForeign(pats: seq<Str>, t: Str) {
    exists i :: 0 <= i < |t| && !StartsPattern(pats, t[i])
  }

  /**
   What a scan of t says about pattern x: a non-empty pattern is found exactly when it occurs;
   the empty pattern is found exactly when t has a symbol that starts no pattern.
   */
  ghost predicate Found(pats: seq<Str>, x: Str, t: Str) {
    if x == [] then HasForeign(pats, t) else Occurs(x, t)
  }

  /** After j symbols of t the state reports x. */
  ghost predicate HitAt(paths: seq<Str>, x: Str, t: Str, j: nat)
    requires [] in paths
  {
    0 < j <= |t| && Reports(paths, x, Longest(paths, t[..j]))
  }

  ghost predicate HitBy(paths: seq<Str>, x: Str, t: Str, i: nat)
    requires [] in paths
  {
    exists j: nat :: j <= i && HitAt(paths, x, t, j)
  }

  lemma HitMeans(paths: seq<Str>, pats: seq<Str>, x: Str, t: Str, j: nat)
    requires Paths(paths) && HasPatterns(paths, pats, |pats|) && FromPatterns(paths, pats, |pats|)
    requires x in paths && 0 < j <= |t|
    ensures HitAt(paths, x, t, j) <==> if x == [] then !StartsPattern(pats, t[j - 1]) else EndsAt(x, t, j)
  {
    ReportsOfLongest(paths, x, t[..j]);
    assert Last(t[..j]) == t[j - 1];
    DepthOne(paths, pats, t[j - 1]);
  }

  lemma HitsAreFinds(paths: seq<Str>, pats: seq<Str>, x: Str, t: Str)
    requires Paths(paths) && HasPatterns(paths, pats, |pats|) && FromPatterns(paths, pats, |pats|)
    requires x in paths
    ensures HitBy(paths, x, t, |t|) <==> Found(pats, x, t)
  {
    if HitBy(paths, x, t, |t|) {
      var j: nat :| j <= |t| && HitAt(paths, x, t, j);
      HitMeans(paths, pats, x, t, j);
      if x != [] {
        OccursEndsSomewhere(x, t);
      }
    }
    if Found(pats, x, t) {
      FindIsHit(paths, pats, x, t);
    }
  }

  lemma FindIsHit(paths: seq<Str>, pats: seq<Str>, x: Str, t: Str)
    requires Paths(paths) && HasPatterns(paths, pats, |pats|) && FromPatterns(paths, pats, |pats|)
    requires x in paths && Found(pats, x, t)
    ensures HitBy(paths, x, t, |t|)
  {
    if x == [] {
      var i :| 0 <= i < |t| && !StartsPattern(pats, t[i]);
      HitMeans(paths, pats, x, t, i + 1);
      assert HitAt(paths, x, t, i + 1);
    } else {
      OccursEndsSomewhere(x, t);
      var j: nat :| EndsAt(x, t, j);
      HitMeans(paths, pats, x, t, j);
    }
  }

  /** The bits a scan has collected after i symbols. */
  ghost predicate Collected(ac: Automaton, t: Str, i: nat, w: Word)
    requires ac.Valid()
    reads ac, ac.goTable, ac.output, ac.outputNext
  {
    forall p | 0 <= p < WIDTH :: w[p] <==> p < |ac.pats| && HitBy(ac.paths, ac.pats[p], t, i)
  }

  lemma CollectMore(ac: Automaton, t: Str, i: nat, w: Word, state: nat)
    requires ac.Valid() && i < |t| && Collected(ac, t, i, w)
    requires state < |ac.paths| && ac.paths[state] == Longest(ac.paths, t[..i + 1])
    ensures Collected(ac, t, i + 1, Or(w, ac.output[state]))
  {
    assert FinalState(ac.table, ac.output[..], ac.outputNext[..], ac.paths, ac.pats, state);
    forall p | 0 <= p < WIDTH
      ensures Or(w, ac.output[state])[p] <==> p < |ac.pats| && HitBy(ac.paths, ac.pats[p], t, i + 1)
    {
      if p < |ac.pats| {
        MoreHits(ac.paths, ac.pats[p], t, i);
      }
    }
  }

  lemma MoreHits(paths: seq<Str>, x: Str, t: Str, i: nat)
    requires [] in paths && i < |t|
    ensures HitBy(paths, x, t, i + 1) <==> HitBy(paths, x, t, i) || HitAt(paths, x, t, i + 1)
  {
  }

  /** One transition keeps the state at the longest suffix that is a state. */
  lemma Advance(ac: Automaton, state: nat, t: Str, i: nat)
    requires ac.Valid() && i < |t| && t[i] < ac.alphaSize
    requires state < |ac.paths| && ac.paths[state] == Longest(ac.paths, t[..i])
    ensures var next := ac.Go(state, t[i]);
            0 <= next < |ac.paths| && ac.paths[next] == Longest(ac.paths, t[..i + 1])
  {
    assert FinalState(ac.table, ac.output[..], ac.outputNext[..], ac.paths, ac.pats, state);
    NextState(ac.paths, ac.table[state], state, t, i);
  }

  lemma NextState(paths: seq<Str>, row: seq<int>, s: nat, t: Str, i: nat)
    requires Paths(paths) && s < |paths| && FinalRow(paths, row, s) && i < |t| && t[i] < |row|
    requires paths[s] == Longest(paths, t[..i])
    ensures 0 <= row[t[i]] < |paths| && paths[row[t[i]]] == Longest(paths, t[..i + 1])
  {
    assert FinalEntry(paths, s, t[i], row[t[i]]);
    LongestStep(paths, t[..i], t[i]);
    TakeNext(t, i);
  }

  lemma TakeNext(t: Str, i: nat)
    requires i < |t|
    ensures t[..i + 1] == t[..i] + [t[i]]
  {
  }

  /** The mask of a text: bit p says whether pattern p is found in it. */
  ghost function MaskOf(pats: seq<Str>, t: Str): Word {
    seq(WIDTH, p requires 0 <= p < WIDTH => p < |pats| && Found(pats, pats[p], t))
  }

  /** `cbm_ac_scan_bitmask` */
  method ScanBitmask(ac: Automaton, text: seq<Byte>) returns (result: Word)
    requires ac.Valid()
    ensures forall p | 0 <= p < WIDTH ::
              result[p] <==> p < |ac.pats| && Found(ac.pats, ac.pats[p], MapText(ac.alphaMap, text))
    ensures result == MaskOf(ac.pats, MapText(ac.alphaMap, text))
  {
    ghost var t := MapText(ac.alphaMap, text);
    result := Zero();
    var state := 0;
    for i := 0 to |text|
      invariant state < |ac.paths| && ac.paths[state] == Longest(ac.paths, t[..i])
      invariant Collected(ac, t, i, result)
    {
      Advance(ac, state, t, i);
      state := ac.Go(state, ac.alphaMap[text[i]]);
      CollectMore(ac, t, i, result, state);
      result := Or(result, ac.output[state]);
    }
    forall p | 0 <= p < WIDTH && p < |ac.pats|
      ensures HitBy(ac.paths, ac.pats[p], t, |t|) <==> Found(ac.pats, ac.pats[p], t)
    {
      HitsAreFinds(ac.paths, ac.pats, ac.pats[p], t);
    }
  }

  /**
   Building an automaton and scanning with it, from the caller's inputs to the answer: for every
   pattern list, alphabet map and text, the bit of a non-empty pattern says whether its mapped
   form occurs in the mapped text. For an empty pattern the bit says so if and only if some symbol
   of the text starts no pattern.
   */
  method BuildAndScan(patterns: seq<seq<Byte>>, alphaMap: AlphaMap, alphaSize: int, text: seq<Byte>)
    returns (mask: Word)
    requires |EffectiveMap(alphaMap)| == BYTE_RANGE
    requires forall b | 0 <= b < BYTE_RANGE :: EffectiveMap(alphaMap)[b] < EffectiveSize(alphaSize)
    ensures alphaMap.Identity? ==> forall p | 0 <= p < 64 && p < |patterns| && patterns[p] != [] ::
              mask[p] <==> Occurs(patterns[p], text)
    ensures alphaMap.Mapped? ==> forall p | 0 <= p < 64 && p < |patterns| && patterns[p] != [] ::
              mask[p] <==> Occurs(MapText(alphaMap.table, patterns[p]), MapText(alphaMap.table, text))
    ensures forall p | |patterns| <= p < WIDTH :: !mask[p]
    ensures forall p | 0 <= p < WIDTH && p < |patterns| :: BitOk(patterns, EffectiveMap(alphaMap), text, mask, p)
  {
    mask := BuildMask(patterns, alphaMap, alphaSize, text);
    if alphaMap.Identity? {
      IdentityBits(patterns, EffectiveMap(alphaMap), text, mask);
    } else {
      MappedBits(patterns, alphaMap.table, text, mask);
    }
  }

  lemma {:induction false} MappedBits(patterns: seq<seq<Byte>>, m: seq<nat>, text: seq<Byte>, mask: Word)
    requires |m| == BYTE_RANGE && forall p | 0 <= p < WIDTH && p < |patterns| :: BitOk(patterns, m, text, mask, p)
    ensures forall p | 0 <= p < WIDTH && p < |patterns| && patterns[p] != [] ::
              mask[p] <==> Occurs(MapText(m, patterns[p]), MapText(m, text))
  {
    forall p | 0 <= p < WIDTH && p < |patterns| && patterns[p] != []
      ensures mask[p] <==> Occurs(MapText(m, patterns[p]), MapText(m, text))
    {
      assert BitOk(patterns, m, text, mask, p);
    }
  }

  method BuildMask(patterns: seq<seq<Byte>>, alphaMap: AlphaMap, alphaSize: int, text: seq<Byte>) returns (mask: Word)
    requires |EffectiveMap(alphaMap)| == BYTE_RANGE
    requires forall b | 0 <= b < BYTE_RANGE :: EffectiveMap(alphaMap)[b] < EffectiveSize(alphaSize)
    ensures forall p | |patterns| <= p < WIDTH :: !mask[p]
    ensures forall p | 0 <= p < WIDTH && p < |patterns| :: BitOk(patterns, EffectiveMap(alphaMap), text, mask, p)
  {
    var ac := Build(patterns, alphaMap, alphaSize);
    if ac == null {
      return Zero();
    }
    mask := ScanBitmask(ac, text);
    ghost var m := ac.alphaMap;
    forall p | 0 <= p < WIDTH && p < |patterns| ensures BitOk(patterns, m, text, mask, p) {
      BitMeans(patterns, m, text, mask, p);
    }
  }

  lemma {:induction false} IdentityBits(patterns: seq<seq<Byte>>, m: seq<nat>, text: seq<Byte>, mask: Word)
    requires |m| == BYTE_RANGE && forall b | 0 <= b < BYTE_RANGE :: m[b] == b
    requires forall p | 0 <= p < WIDTH && p < |patterns| :: BitOk(patterns, m, text, mask, p)
    ensures forall p | 0 <= p < WIDTH && p < |patterns| && patterns[p] != [] :: mask[p] <==> Occurs(patterns[p], text)
  {
    MapIdentity(m, text);
    forall p | 0 <= p < WIDTH && p < |patterns| && patterns[p] != [] ensures mask[p] <==> Occurs(patterns[p], text) {
      MapIdentity(m, patterns[p]);
      assert BitOk(patterns, m, text, mask, p);
    }
  }

  /** Bit p of a mask in terms of patterns, map and text. */
  ghost predicate BitOk(patterns: seq<seq<Byte>>, m: seq<nat>, text: seq<Byte>, mask: Word, p: nat)
    requires |m| == BYTE_RANGE && p < WIDTH && p < |patterns|
  {
    var x, t := MapText(m, patterns[p]), MapText(m, text);
    && (mask[p] <==> Found(MapAll(m, patterns), x, t))
    && (patterns[p] != [] ==> (mask[p] <==> Occurs(x, t)))
    && ((mask[p] <==> Occurs(x, t)) <==> patterns[p] != [] || HasForeign(MapAll(m, patterns), t))
  }

  lemma {:induction false} BitMeans(patterns: seq<seq<Byte>>, m: seq<nat>, text: seq<Byte>, mask: Word, p: nat)
    requires |m| == BYTE_RANGE && p < WIDTH && p < |patterns|
    requires mask[p] <==> Found(MapAll(m, patterns), MapAll(m, patterns)[p], MapText(m, text))
    ensures BitOk(patterns, m, text, mask, p)
  {
    MapAt(m, patterns, p);
    OccurrenceLaw(MapAll(m, patterns), MapText(m, patterns[p]), MapText(m, text));
  }

  // ----- the empty pattern -----

  /**
   "Bit p is set exactly when pattern p occurs" holds for a pattern and a text if and only if
   the pattern is not empty or the text has a symbol that starts no pattern.
   */
  lemma OccurrenceLaw(pats: seq<Str>, x: Str, t: Str)
    ensures (Found(pats, x, t) <==> Occurs(x, t)) <==>
            x != [] || HasForeign(pats, t)
  {
    if x == [] {
      assert OccursAt(x, t, 0);
    }
  }

  /** The failing family is not empty: "" occurs in "a" but is not found there beside pattern "a". */
  lemma EmptyPatternMissed()
    ensures Occurs([], [7]) && !Found([[], [7]], [], [7])
  {
    assert OccursAt([], [7], 0);
    assert [[], [7]][1][0] == 7;
  }
}

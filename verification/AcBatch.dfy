/** Scanning many names at once: `cbm_ac_scan_batch`, its report, and the meaning of that report. */
module AcBatch {
  import opened Prelude
  import opened AcSpec
  import opened AcTables
  import opened AcBfs
  import opened AcAutomaton
  import opened AcScan
  import opened Word64

  datatype Match = Match(nameIndex: nat, patternId: nat)

  // ----- the report, as a function of the words met -----

  /** The ids of a word, lowest first: what the bit loop extracts. */
  function Ascending(w: Word): seq<nat>
    decreases |Ids(w)|
  {
    if w == Zero() then [] else
      var p := CountTrailingZeros(w);
      assert p in Ids(w);
      [p] + Ascending(ClearLowBit(w))
  }

  lemma {:induction false} AscendingExact(w: Word)
    ensures forall p :: p in Ascending(w) <==> p in Ids(w)
    ensures forall i, j | 0 <= i < j < |Ascending(w)| :: Ascending(w)[i] < Ascending(w)[j]
    decreases |Ids(w)|
  {
    EmptyIds(w);
    if w != Zero() {
      var p := CountTrailingZeros(w);
      assert p in Ids(w);
      AscendingExact(ClearLowBit(w));
      var rest := Ascending(ClearLowBit(w));
      forall j | 0 <= j < |rest| ensures p < rest[j] {
        assert rest[j] in rest;
      }
    }
  }

  /** The ids first met in a run of words, given those seen before. */
  function NewIds(words: seq<Word>, seen: Word): (ids: seq<nat>)
    decreases |words|
  {
    if words == [] then []
    else Ascending(And(words[0], Not(seen))) + NewIds(words[1..], Or(seen, words[0]))
  }

  ghost predicate InSome(words: seq<Word>, p: nat) {
    exists i :: 0 <= i < |words| && p in Ids(words[i])
  }

  /** Exactly the ids of the words that were not seen before, each once. */
  lemma {:induction false} NewIdsExact(words: seq<Word>, seen: Word)
    ensures NoRepeats(NewIds(words, seen))
    ensures forall p: nat :: p in NewIds(words, seen) <==> InSome(words, p) && p !in Ids(seen)
  {
    if words != [] {
      var first := Ascending(And(words[0], Not(seen)));
      var rest := NewIds(words[1..], Or(seen, words[0]));
      NewIdsExact(words[1..], Or(seen, words[0]));
      AscendingExact(And(words[0], Not(seen)));
      forall p: nat ensures p in first + rest <==> InSome(words, p) && p !in Ids(seen) {
        SplitFirst(words, p);
      }
      forall i, j | 0 <= i < j < |first + rest| ensures (first + rest)[i] != (first + rest)[j] {
        if i < |first| <= j {
          assert first[i] in first && rest[j - |first|] in rest;
        }
      }
    }
  }

  lemma SplitFirst(words: seq<Word>, p: nat)
    requires words != []
    ensures InSome(words, p) <==> p in Ids(words[0]) || InSome(words[1..], p)
  {
    if InSome(words, p) && p !in Ids(words[0]) {
      var i :| 0 <= i < |words| && p in Ids(words[i]);
      assert words[1..][i - 1] == words[i];
    }
    if InSome(words[1..], p) {
      var i :| 0 <= i < |words[1..]| && p in Ids(words[1..][i]);
      assert words[i + 1] == words[1..][i];
    }
  }

  function Tag(n: nat, ids: seq<nat>): seq<Match> {
    seq(|ids|, i requires 0 <= i < |ids| => Match(n, ids[i]))
  }

  /** What a complete batch reports: name by name, the ids of that name. */
  function Report(ids: seq<seq<nat>>, n: nat): seq<Match>
    requires n <= |ids|
    decreases |ids| - n
  {
    if n == |ids| then [] else Tag(n, ids[n]) + Report(ids, n + 1)
  }

  /** The report goes through the names in order. */
  lemma {:induction false} ReportInOrder(ids: seq<seq<nat>>, n: nat)
    requires n <= |ids|
    ensures forall i | 0 <= i < |Report(ids, n)| :: n <= Report(ids, n)[i].nameIndex < |ids|
    ensures forall i, j | 0 <= i < j < |Report(ids, n)| :: Report(ids, n)[i].nameIndex <= Report(ids, n)[j].nameIndex
    decreases |ids| - n
  {
    if n < |ids| {
      ReportInOrder(ids, n + 1);
    }
  }

  lemma InTag(n: nat, ids: seq<nat>, m: Match)
    ensures m in Tag(n, ids) <==> m.nameIndex == n && m.patternId in ids
  {
    if m in Tag(n, ids) {
      var i :| 0 <= i < |ids| && Tag(n, ids)[i] == m;
      assert ids[i] in ids;
    }
    if m.nameIndex == n && m.patternId in ids {
      var i :| 0 <= i < |ids| && ids[i] == m.patternId;
      assert Tag(n, ids)[i] == m;
    }
  }

  /** (n, p) is reported exactly when p is an id of name n. */
  lemma {:induction false} ReportExact(ids: seq<seq<nat>>, n: nat, m: Match)
    requires n <= |ids|
    ensures m in Report(ids, n) <==> n <= m.nameIndex < |ids| && m.patternId in ids[m.nameIndex]
    decreases |ids| - n
  {
    if n < |ids| {
      ReportExact(ids, n + 1, m);
      InTag(n, ids[n], m);
    }
  }

  lemma JoinOnce(first: seq<Match>, rest: seq<Match>, n: nat)
    requires NoRepeats(first) && NoRepeats(rest)
    requires forall m | m in first :: m.nameIndex == n
    requires forall m | m in rest :: m.nameIndex != n
    ensures NoRepeats(first + rest)
  {
    forall i, j | 0 <= i < j < |first + rest| ensures (first + rest)[i] != (first + rest)[j] {
      if i < |first| <= j {
        assert first[i] in first && rest[j - |first|] in rest;
      }
    }
  }

  /** No pair is reported twice. */
  lemma {:induction false} ReportOnce(ids: seq<seq<nat>>, n: nat)
    requires n <= |ids| && forall k | 0 <= k < |ids| :: NoRepeats(ids[k])
    ensures NoRepeats(Report(ids, n))
    decreases |ids| - n
  {
    if n < |ids| {
      ReportOnce(ids, n + 1);
      var first, rest := Tag(n, ids[n]), Report(ids, n + 1);
      assert NoRepeats(ids[n]);
      forall m | m in rest ensures m.nameIndex != n {
        ReportExact(ids, n + 1, m);
      }
      JoinOnce(first, rest, n);
    }
  }

  // ----- the words met while scanning a name -----

  /** The word met after j symbols; the root is skipped, so its word counts as empty. */
  ghost function WordAt(paths: seq<Str>, out: seq<Word>, t: Str, j: nat): Word
    requires [] in paths && |paths| <= |out| && j <= |t|
  {
    var s := IndexOf(paths, Longest(paths, t[..j]));
    if s == 0 then Zero() else out[s]
  }

  /** The words met from position i on. */
  ghost function WordsFrom(paths: seq<Str>, out: seq<Word>, t: Str, i: nat): seq<Word>
    requires [] in paths && |paths| <= |out| && i <= |t|
  {
    seq<Word>(|t| - i, k requires 0 <= k < |t| - i => WordAt(paths, out, t, i + k + 1))
  }

  lemma WordsStep(paths: seq<Str>, out: seq<Word>, t: Str, i: nat)
    requires [] in paths && |paths| <= |out| && i < |t|
    ensures WordsFrom(paths, out, t, i) == [WordAt(paths, out, t, i + 1)] + WordsFrom(paths, out, t, i + 1)
  {
  }

  lemma WordHit(ac: Automaton, t: Str, p: nat, j: nat)
    requires ac.Valid() && p < WIDTH && 0 < j <= |t|
    requires p < |ac.pats| ==> ac.pats[p] != []
    ensures p in Ids(WordAt(ac.paths, ac.output[..], t, j)) <==>
            p < |ac.pats| && HitAt(ac.paths, ac.pats[p], t, j)
  {
    var s := IndexOf(ac.paths, Longest(ac.paths, t[..j]));
    assert FinalState(ac.table, ac.output[..], ac.outputNext[..], ac.paths, ac.pats, s);
    if s == 0 {
      SameState(ac.paths, s, 0);
    }
  }

  /** For a non-empty pattern, a name's words hold exactly what `ScanBitmask` finds in it. */
  lemma WordsFind(ac: Automaton, t: Str, p: nat)
    requires ac.Valid() && p < WIDTH
    requires p < |ac.pats| ==> ac.pats[p] != []
    ensures InSome(WordsFrom(ac.paths, ac.output[..], t, 0), p) <==>
            p < |ac.pats| && Found(ac.pats, ac.pats[p], t)
  {
    if p < |ac.pats| {
      HitsAreFinds(ac.paths, ac.pats, ac.pats[p], t);
    }
    if InSome(WordsFrom(ac.paths, ac.output[..], t, 0), p) {
      WordIsHit(ac, t, p);
    }
    if p < |ac.pats| && HitBy(ac.paths, ac.pats[p], t, |t|) {
      var j: nat :| j <= |t| && HitAt(ac.paths, ac.pats[p], t, j);
      WordHit(ac, t, p, j);
      WordIsMet(ac.paths, ac.output[..], t, j, p);
    }
  }

  lemma WordIsHit(ac: Automaton, t: Str, p: nat)
    requires ac.Valid() && p < WIDTH && (p < |ac.pats| ==> ac.pats[p] != [])
    requires InSome(WordsFrom(ac.paths, ac.output[..], t, 0), p)
    ensures p < |ac.pats| && HitBy(ac.paths, ac.pats[p], t, |t|)
  {
    var j := MeetingPoint(ac.paths, ac.output[..], t, p);
    WordHit(ac, t, p, j);
  }

  lemma WordIsMet(paths: seq<Str>, out: seq<Word>, t: Str, j: nat, p: nat)
    requires [] in paths && |paths| <= |out| && 0 < j <= |t| && p in Ids(WordAt(paths, out, t, j))
    ensures InSome(WordsFrom(paths, out, t, 0), p)
  {
    assert WordsFrom(paths, out, t, 0)[j - 1] == WordAt(paths, out, t, j);
  }

  /** Following `output_next` leads to a shallower state whose patterns are all reported already. */
  lemma ChainAddsNothing(ac: Automaton, s: nat)
    requires ac.Valid() && s < |ac.paths| && ac.outputNext[s] != NO_STATE
    ensures 0 <= ac.outputNext[s] < |ac.paths|
    ensures |ac.paths[ac.outputNext[s]]| < |ac.paths[s]|
    ensures Ids(ac.output[ac.outputNext[s]]) <= Ids(ac.output[s])
  {
    assert FinalState(ac.table, ac.output[..], ac.outputNext[..], ac.paths, ac.pats, s);
    var x := ac.outputNext[s];
    assert FinalState(ac.table, ac.output[..], ac.outputNext[..], ac.paths, ac.pats, x);
    LinkedIds(ac.paths, ac.pats, s, x, ac.output[..][s], ac.output[..][x]);
  }

  lemma LinkedIds(paths: seq<Str>, pats: seq<Str>, s: nat, x: nat, ws: Word, wx: Word)
    requires Paths(paths) && HasPatterns(paths, pats, |pats|) && s < |paths| && |paths[s]| >= 2 && FailLink(paths, s, x)
    requires FinalOutput(paths, pats, s, ws) && FinalOutput(paths, pats, x, wx)
    ensures |paths[x]| < |paths[s]| && Ids(wx) <= Ids(ws)
  {
    forall p | p in Ids(wx) ensures p in Ids(ws) {
      ReportsInherited(paths, pats[p], paths[s]);
    }
  }

  // ----- the scan -----

  /**
   `written` is what has been stored so far of the complete report `full`; while there is room,
   `rest` is exactly what is still to come.
   */
  ghost predicate Writing(written: seq<Match>, rest: seq<Match>, full: seq<Match>, maxMatches: nat) {
    && |written| <= maxMatches
    && written <= full
    && (|written| < maxMatches ==> written + rest == full)
  }

  /** Storing the lowest id of a word takes it off the front of what is to come. */
  lemma StoreLowest(written: seq<Match>, n: nat, bits: Word, rest: seq<Match>, full: seq<Match>, maxMatches: nat)
    requires bits != Zero() && |written| < maxMatches
    requires Writing(written, Tag(n, Ascending(bits)) + rest, full, maxMatches)
    ensures Writing(written + [Match(n, CountTrailingZeros(bits))],
                    Tag(n, Ascending(ClearLowBit(bits))) + rest, full, maxMatches)
  {
    var p, ids := CountTrailingZeros(bits), Ascending(ClearLowBit(bits));
    TagCons(n, p, ids);
    TakeFirst(written, Match(n, p), Tag(n, ids), rest, full, maxMatches);
  }

  lemma TagCons(n: nat, p: nat, ids: seq<nat>)
    ensures Tag(n, [p] + ids) == [Match(n, p)] + Tag(n, ids)
  {
  }

  lemma TakeFirst(written: seq<Match>, m: Match, later: seq<Match>, rest: seq<Match>, full: seq<Match>, maxMatches: nat)
    requires |written| < maxMatches && Writing(written, [m] + later + rest, full, maxMatches)
    ensures Writing(written + [m], later + rest, full, maxMatches)
  {
    assert written + ([m] + later + rest) == written + [m] + (later + rest);
  }

  /** Every id of `seen` and `word`, either taken over or still to come. */
  ghost predicate Split(seen: Word, bits: Word, all: Word) {
    forall p | 0 <= p < WIDTH :: all[p] <==> seen[p] || bits[p]
  }

  lemma SplitStep(seen: Word, bits: Word, all: Word)
    requires bits != Zero() && Split(seen, bits, all)
    ensures Split(Or(seen, One(CountTrailingZeros(bits))), ClearLowBit(bits), all)
  {
    var left, pid := ClearLowBit(bits), CountTrailingZeros(bits);
    forall p | 0 <= p < WIDTH ensures left[p] <==> bits[p] && p != pid {
      assert p in Ids(left) <==> p in Ids(bits) - {pid};
    }
  }

  /** The bit loop: store the ids of a word until it is used up or the buffer is full. */
  method StoreBits(written: seq<Match>, n: nat, word: Word, seen: Word, maxMatches: nat,
                   ghost rest: seq<Match>, ghost full: seq<Match>)
    returns (written': seq<Match>, seen': Word)
    requires Writing(written, Tag(n, Ascending(And(word, Not(seen)))) + rest, full, maxMatches)
    ensures Writing(written', rest, full, maxMatches) && |written| <= |written'|
    ensures |written'| < maxMatches ==> seen' == Or(seen, word)
  {
    written', seen' := written, seen;
    var bits := And(word, Not(seen));
    while bits != Zero() && |written'| < maxMatches
      invariant Writing(written', Tag(n, Ascending(bits)) + rest, full, maxMatches)
      invariant |written| <= |written'|
      invariant Split(seen', bits, Or(seen, word))
      decreases |Ids(bits)|
    {
      var pid := CountTrailingZeros(bits);
      assert pid in Ids(bits);
      StoreLowest(written', n, bits, rest, full, maxMatches);
      SplitStep(seen', bits, Or(seen, word));
      written' := written' + [Match(n, pid)];
      seen' := Or(seen', One(pid));
      bits := ClearLowBit(bits);
    }
    if |written'| < maxMatches {
      assert Tag(n, Ascending(bits)) + rest == rest;
      assert seen' == Or(seen, word);
    }
  }

  /** Ids already seen are not stored again. */
  lemma NothingNew(word: Word, seen: Word)
    requires Ids(word) <= Ids(seen)
    ensures Ascending(And(word, Not(seen))) == [] && Or(seen, word) == seen
  {
    forall p | 0 <= p < WIDTH ensures word[p] ==> seen[p] {
      assert word[p] ==> p in Ids(word);
    }
    assert And(word, Not(seen)) == Zero();
    assert Or(seen, word) == seen;
  }

  /** The walk over a state and its `output_next` chain. */
  method ReportState(ac: Automaton, written: seq<Match>, n: nat, state: nat, seen: Word, maxMatches: nat,
                     ghost rest: seq<Match>, ghost full: seq<Match>)
    returns (written': seq<Match>, seen': Word)
    requires ac.Valid() && state < |ac.paths|
    requires var word := if state == 0 then Zero() else ac.output[state];
             Writing(written, Tag(n, Ascending(And(word, Not(seen)))) + rest, full, maxMatches)
    ensures Writing(written', rest, full, maxMatches) && |written| <= |written'|
    ensures |written'| < maxMatches ==> seen' == Or(seen, if state == 0 then Zero() else ac.output[state])
  {
    written', seen' := written, seen;
    var s: nat := state;
    var out, next := ac.output, ac.outputNext;
    ghost var depth := ac.paths;
    assert |depth| <= out.Length == next.Length;
    ghost var word := if state == 0 then Zero() else out[state];
    ghost var first := true;
    Untouched(written, n, seen, maxMatches, rest, full, word);
    while s > 0 && |written'| < maxMatches
      invariant s < |depth| && |written| <= |written'|
      invariant first ==> s == state && written' == written && seen' == seen
      invariant !first ==> Writing(written', rest, full, maxMatches)
      invariant !first && |written'| < maxMatches ==> seen' == Or(seen, word)
      invariant !first ==> Ids(out[s]) <= Ids(word)
      decreases |depth[s]|
    {
      if !first {
        assert Ids(word) <= Ids(seen');
        NothingNew(out[s], seen');
        assert Tag(n, []) + rest == rest;
      }
      written', seen' := StoreBits(written', n, out[s], seen', maxMatches, rest, full);
      first := false;
      if next[s] == NO_STATE || next[s] == s {
        break;
      }
      ChainAddsNothing(ac, s);
      s := next[s];
    }
  }

  /** When nothing can be stored, nothing needs to be. */
  lemma Untouched(written: seq<Match>, n: nat, seen: Word, maxMatches: nat,
                  rest: seq<Match>, full: seq<Match>, word: Word)
    requires Writing(written, Tag(n, Ascending(And(word, Not(seen)))) + rest, full, maxMatches)
    ensures word == Zero() || |written| == maxMatches ==> Writing(written, rest, full, maxMatches)
    ensures word == Zero() ==> Or(seen, word) == seen
  {
    if word == Zero() {
      NothingNew(word, seen);
      assert Tag(n, []) + rest == rest;
    }
  }

  /** A name whose scan is under way: the ids still to come from position i, then the other names. */
  ghost function Coming(paths: seq<Str>, out: seq<Word>, t: Str, i: nat, n: nat, seen: Word,
                        rest: seq<Match>): seq<Match>
    requires [] in paths && |paths| <= |out| && i <= |t|
  {
    Tag(n, NewIds(WordsFrom(paths, out, t, i), seen)) + rest
  }

  lemma ComingStep(paths: seq<Str>, out: seq<Word>, t: Str, i: nat, n: nat, seen: Word, rest: seq<Match>)
    requires [] in paths && |paths| <= |out| && i < |t|
    ensures var w := WordAt(paths, out, t, i + 1);
            Coming(paths, out, t, i, n, seen, rest) ==
            Tag(n, Ascending(And(w, Not(seen)))) + Coming(paths, out, t, i + 1, n, Or(seen, w), rest)
  {
    WordsStep(paths, out, t, i);
    var w := WordAt(paths, out, t, i + 1);
    var now, later := Ascending(And(w, Not(seen))), NewIds(WordsFrom(paths, out, t, i + 1), Or(seen, w));
    assert WordsFrom(paths, out, t, i)[1..] == WordsFrom(paths, out, t, i + 1);
    TagConcat(n, now, later, rest);
  }

  lemma TagConcat(n: nat, now: seq<nat>, later: seq<nat>, rest: seq<Match>)
    ensures Tag(n, now + later) + rest == Tag(n, now) + (Tag(n, later) + rest)
  {
    assert Tag(n, now + later) == Tag(n, now) + Tag(n, later);
  }

  lemma ComingEnd(paths: seq<Str>, out: seq<Word>, t: Str, n: nat, seen: Word, rest: seq<Match>)
    requires [] in paths && |paths| <= |out|
    ensures Coming(paths, out, t, |t|, n, seen, rest) == rest
  {
  }

  /** The text loop over one name. */
  method ScanName(ac: Automaton, written: seq<Match>, n: nat, text: seq<Byte>, maxMatches: nat,
                  ghost rest: seq<Match>, ghost full: seq<Match>)
    returns (written': seq<Match>)
    requires ac.Valid()
    requires Writing(written, Coming(ac.paths, ac.output[..], MapText(ac.alphaMap, text), 0, n, Zero(), rest),
                     full, maxMatches)
    ensures Writing(written', rest, full, maxMatches)
  {
    ghost var t := MapText(ac.alphaMap, text);
    ghost var paths, out := ac.paths, ac.output[..];
    written' := written;
    var state: nat, seen: Word := 0, Zero();
    for i := 0 to |text|
      invariant state < |paths| && paths[state] == Longest(paths, t[..i])
      invariant Writing(written', Coming(paths, out, t, i, n, seen, rest), full, maxMatches)
    {
      Advance(ac, state, t, i);
      state := ac.Go(state, ac.alphaMap[text[i]]);
      ghost var w := WordAt(paths, out, t, i + 1);
      SameState(paths, state, IndexOf(paths, Longest(paths, t[..i + 1])));
      ComingStep(paths, out, t, i, n, seen, rest);
      ghost var coming := Coming(paths, out, t, i + 1, n, Or(seen, w), rest);
      written', seen := ReportState(ac, written', n, state, seen, maxMatches, coming, full);
    }
    ComingEnd(paths, out, t, n, seen, rest);
  }

  /** The caller's promise: every name lies inside the shared buffer. */
  ghost predicate InBuffer(buf: seq<Byte>, offsets: seq<nat>, lengths: seq<nat>) {
    |offsets| == |lengths| && forall n | 0 <= n < |offsets| :: offsets[n] + lengths[n] <= |buf|
  }

  /** The names cut out of the shared buffer. */
  ghost function Names(buf: seq<Byte>, offsets: seq<nat>, lengths: seq<nat>): (names: seq<seq<Byte>>)
    requires InBuffer(buf, offsets, lengths)
    ensures |names| == |offsets|
    ensures forall n | 0 <= n < |offsets| :: names[n] == buf[offsets[n]..offsets[n] + lengths[n]]
  {
    if offsets == [] then []
    else [buf[offsets[0]..offsets[0] + lengths[0]]] + Names(buf, offsets[1..], lengths[1..])
  }

  /** The ids to be reported for one mapped name. */
  ghost function IdsOf(paths: seq<Str>, out: seq<Word>, t: Str): seq<nat>
    requires [] in paths && |paths| <= |out|
  {
    NewIds(WordsFrom(paths, out, t, 0), Zero())
  }

  /** The ids to be reported for every name. */
  ghost function NameIds(paths: seq<Str>, out: seq<Word>, texts: seq<Str>): (ids: seq<seq<nat>>)
    requires [] in paths && |paths| <= |out|
    ensures |ids| == |texts|
    ensures forall n | 0 <= n < |texts| :: ids[n] == IdsOf(paths, out, texts[n])
  {
    if texts == [] then [] else [IdsOf(paths, out, texts[0])] + NameIds(paths, out, texts[1..])
  }

  /** Everything a batch has to report. */
  ghost function FullReport(ac: Automaton, names: seq<seq<Byte>>): seq<Match>
    requires ac.Valid()
    reads ac, ac.goTable, ac.output, ac.outputNext
  {
    Report(NameIds(ac.paths, ac.output[..], MapAll(ac.alphaMap, names)), 0)
  }

  /** `ids[n]` is what is to be reported for name n of the buffer. */
  ghost predicate NameMeets(paths: seq<Str>, out: seq<Word>, alphaMap: seq<nat>, buf: seq<Byte>,
                            offsets: seq<nat>, lengths: seq<nat>, ids: seq<seq<nat>>, n: nat)
    requires [] in paths && |paths| <= |out| && |alphaMap| == BYTE_RANGE && InBuffer(buf, offsets, lengths)
    requires |ids| == |offsets|
  {
    n < |offsets| ==>
      ids[n] == IdsOf(paths, out, MapText(alphaMap, buf[offsets[n]..offsets[n] + lengths[n]]))
  }

  /** Scanning name n moves the report past that name. */
  method ScanNth(ac: Automaton, matches: seq<Match>, n: nat, buf: seq<Byte>, offsets: seq<nat>, lengths: seq<nat>,
                 maxMatches: nat, ghost ids: seq<seq<nat>>, ghost full: seq<Match>)
    returns (matches': seq<Match>)
    requires ac.Valid() && InBuffer(buf, offsets, lengths) && n < |offsets| == |ids|
    requires NameMeets(ac.paths, ac.output[..], ac.alphaMap, buf, offsets, lengths, ids, n)
    requires Writing(matches, Report(ids, n), full, maxMatches)
    ensures Writing(matches', Report(ids, n + 1), full, maxMatches)
  {
    var text := buf[offsets[n]..offsets[n] + lengths[n]];
    matches' := ScanName(ac, matches, n, text, maxMatches, Report(ids, n + 1), full);
  }

  /** The loop over the names. */
  method ScanNames(ac: Automaton, buf: seq<Byte>, offsets: seq<nat>, lengths: seq<nat>, maxMatches: nat,
                   ghost ids: seq<seq<nat>>)
    returns (matches: seq<Match>)
    requires ac.Valid() && InBuffer(buf, offsets, lengths) && |ids| == |offsets|
    requires forall n: nat :: NameMeets(ac.paths, ac.output[..], ac.alphaMap, buf, offsets, lengths, ids, n)
    ensures var full := Report(ids, 0);
            matches == full[..if |full| < maxMatches then |full| else maxMatches]
  {
    ghost var full := Report(ids, 0);
    matches := [];
    var n := 0;
    while n < |offsets| && |matches| < maxMatches
      invariant 0 <= n <= |offsets|
      invariant Writing(matches, Report(ids, n), full, maxMatches)
    {
      matches := ScanNth(ac, matches, n, buf, offsets, lengths, maxMatches, ids, full);
      n := n + 1;
    }
  }

  /** `cbm_ac_scan_batch`: the complete report, cut at the capacity of the caller's buffer. */
  method ScanBatch(ac: Automaton, buf: seq<Byte>, offsets: seq<nat>, lengths: seq<nat>, maxMatches: nat)
    returns (matches: seq<Match>)
    requires ac.Valid() && InBuffer(buf, offsets, lengths)
    ensures var full := FullReport(ac, Names(buf, offsets, lengths));
            matches == full[..if |full| < maxMatches then |full| else maxMatches]
  {
    ghost var ids := NameIds(ac.paths, ac.output[..], MapAll(ac.alphaMap, Names(buf, offsets, lengths)));
    matches := ScanNames(ac, buf, offsets, lengths, maxMatches, ids);
  }

  /** With room for everything, (n, p) is stored exactly when pattern p occurs in name n, and once. */
  lemma BatchFindsAll(ac: Automaton, names: seq<seq<Byte>>, n: nat, p: nat)
    requires ac.Valid() && (p < |ac.pats| ==> ac.pats[p] != [])
    ensures Match(n, p) in FullReport(ac, names) <==>
            n < |names| && p < |ac.pats| && p < WIDTH && Occurs(ac.pats[p], MapText(ac.alphaMap, names[n]))
    ensures NoRepeats(FullReport(ac, names))
  {
    var texts := MapAll(ac.alphaMap, names);
    var ids := NameIds(ac.paths, ac.output[..], texts);
    forall k | 0 <= k < |ids| ensures NoRepeats(ids[k]) {
      NewIdsExact(WordsFrom(ac.paths, ac.output[..], texts[k], 0), Zero());
    }
    ReportExact(ids, 0, Match(n, p));
    ReportOnce(ids, 0);
    if n < |names| {
      NewIdsExact(WordsFrom(ac.paths, ac.output[..], texts[n], 0), Zero());
      if p < WIDTH {
        WordsFind(ac, texts[n], p);
      }
    }
  }

  // ----- the empty pattern in a batch -----

  /** Just before position j a prefix of some pattern ends that is not empty, and the last symbol starts no pattern. */
  ghost predicate EmptyHitAt(pats: seq<Str>, t: Str, i: nat, j: nat) {
    i < j <= |t| && PrefixOfSome(t[i..j], pats, |pats|) && !StartsPattern(pats, t[j - 1])
  }

  /** What the batch says about an empty pattern in t; weaker than the mask, which also looks at the root. */
  ghost predicate BatchFindsEmpty(pats: seq<Str>, t: Str) {
    exists i: nat, j: nat :: EmptyHitAt(pats, t, i, j)
  }

  /** The state after j symbols is not the root exactly when some non-empty prefix of a pattern ends there. */
  lemma BeyondRoot(paths: seq<Str>, pats: seq<Str>, t: Str, j: nat)
    requires Paths(paths) && HasPatterns(paths, pats, |pats|) && FromPatterns(paths, pats, |pats|) && j <= |t|
    ensures Longest(paths, t[..j]) != [] <==> exists i: nat :: i < j && PrefixOfSome(t[i..j], pats, |pats|)
  {
    var w := Longest(paths, t[..j]);
    if w != [] {
      var i := j - |w|;
      SuffixSlice(w, t, j);
      StatesArePrefixes(paths, pats, w);
      assert PrefixOfSome(t[i..j], pats, |pats|);
    }
    if i: nat :| i < j && PrefixOfSome(t[i..j], pats, |pats|) {
      StatesArePrefixes(paths, pats, t[i..j]);
      SliceIsSuffix(t, i, j);
      LongestIsLongest(paths, t[..j], t[i..j]);
    }
  }

  lemma SuffixSlice(w: Str, t: Str, j: nat)
    requires j <= |t| && IsSuffix(w, t[..j])
    ensures |w| <= j && t[j - |w|..j] == w
  {
  }

  lemma SliceIsSuffix(t: Str, i: nat, j: nat)
    requires i < j <= |t|
    ensures IsSuffix(t[i..j], t[..j])
  {
    assert t[..j][i..] == t[i..j];
    if i == 0 {
      assert t[0..j] == t[..j];
    }
  }

  /** An empty pattern is reported for a name if and only if the name has such a position. */
  lemma BatchEmptyPattern(ac: Automaton, names: seq<seq<Byte>>, n: nat, p: nat)
    requires ac.Valid() && p < |ac.pats| && ac.pats[p] == []
    ensures Match(n, p) in FullReport(ac, names) <==>
            n < |names| && p < WIDTH && BatchFindsEmpty(ac.pats, MapText(ac.alphaMap, names[n]))
  {
    var texts := MapAll(ac.alphaMap, names);
    ReportExact(NameIds(ac.paths, ac.output[..], texts), 0, Match(n, p));
    if n < |names| {
      NewIdsExact(WordsFrom(ac.paths, ac.output[..], texts[n], 0), Zero());
      if p < WIDTH {
        EmptyWordsMet(ac, texts[n], p);
      }
    }
  }

  lemma EmptyWordsMet(ac: Automaton, t: Str, p: nat)
    requires ac.Valid() && p < WIDTH && p < |ac.pats| && ac.pats[p] == []
    ensures InSome(WordsFrom(ac.paths, ac.output[..], t, 0), p) <==> BatchFindsEmpty(ac.pats, t)
  {
    if InSome(WordsFrom(ac.paths, ac.output[..], t, 0), p) {
      var j := MeetingPoint(ac.paths, ac.output[..], t, p);
      EmptyWordHit(ac, t, p, j);
    }
    if BatchFindsEmpty(ac.pats, t) {
      var i: nat, j: nat :| EmptyHitAt(ac.pats, t, i, j);
      EmptyWordHit(ac, t, p, j);
      WordIsMet(ac.paths, ac.output[..], t, j, p);
    }
  }

  /** A name on which the mask reports an empty pattern and the batch does not, although it occurs. */
  lemma BatchMissesEmpty()
    ensures Occurs([], [8]) && Found([[], [7]], [], [8]) && !BatchFindsEmpty([[], [7]], [8])
  {
    assert OccursAt([], [8], 0);
    assert !StartsPattern([[], [7]], [8][0]);
    EightStartsNothing();
    forall i: nat, j: nat ensures !EmptyHitAt([[], [7]], [8], i, j) {
      assert i < j <= 1 ==> i == 0 && j == 1;
    }
  }

  lemma EightStartsNothing()
    ensures !PrefixOfSome([8][0..1], [[], [7]], 2)
  {
    assert [8][0..1] == [8];
    SamePrefix(8, 7);
  }

  lemma SamePrefix(a: nat, b: nat)
    ensures [a] <= [b] ==> a == b
  {
    if [a] <= [b] {
      assert [a][0] == [b][0];
    }
  }

  /** The same by the code: patterns "" and byte 7, name byte 8; the mask has bit 0, the batch reports nothing. */
  method BatchMissesEmptyPattern() returns (mask: Word, matches: seq<Match>)
    ensures mask[0] && Match(0, 0) !in matches
  {
    var patterns: seq<seq<Byte>>, name: seq<Byte> := [[], [7]], [8];
    var ac := Build(patterns, Identity, 0);
    MapTwo(ac.alphaMap);
    BatchMissesEmpty();
    mask := ScanBitmask(ac, name);
    matches := ScanBatch(ac, name, [0], [1], 2);
    BatchEmptyPattern(ac, Names(name, [0], [1]), 0, 0);
  }

  /** Sixty-five patterns of one byte each. */
  function SixtyFive(): (ps: seq<seq<Byte>>)
    ensures |ps| == 65 && forall i | 0 <= i < 65 :: ps[i] == [i]
  {
    seq(65, i requires 0 <= i < 65 => [i])
  }

  /** Whatever the patterns and the name, the batch does not report a pattern from the sixty-fifth on. */
  method LatePatternMissed(ac: Automaton, p: nat, name: seq<Byte>, maxMatches: nat) returns (matches: seq<Match>)
    requires ac.Valid() && WIDTH <= p
    ensures Match(0, p) !in matches
  {
    matches := ScanBatch(ac, name, [0], [|name|], maxMatches);
    BeyondTheMask(ac, Names(name, [0], [|name|]), 0, p);
  }

  /** Such a pattern may well occur. */
  lemma SixtyFifthOccurs()
    ensures Occurs(MapText(IdentityMap(), SixtyFive()[64]), MapText(IdentityMap(), [64]))
  {
    assert OccursAt(MapText(IdentityMap(), [64]), MapText(IdentityMap(), [64]), 0);
  }

  /** No pattern from the sixty-fifth on is ever reported. */
  lemma BeyondTheMask(ac: Automaton, names: seq<seq<Byte>>, n: nat, p: nat)
    requires ac.Valid() && p >= WIDTH
    ensures Match(n, p) !in FullReport(ac, names)
  {
    var texts := MapAll(ac.alphaMap, names);
    ReportExact(NameIds(ac.paths, ac.output[..], texts), 0, Match(n, p));
    if n < |names| {
      NewIdsExact(WordsFrom(ac.paths, ac.output[..], texts[n], 0), Zero());
    }
  }

  lemma MapTwo(m: seq<nat>)
    requires m == IdentityMap()
    ensures MapAll(m, [[], [7]]) == [[], [7]] && MapText(m, [8]) == [8] && Names([8], [0], [1]) == [[8]]
  {
    assert MapText(m, [7]) == [7] && MapText(m, []) == [];
    var texts: seq<seq<Byte>> := [[], [7]];
    assert MapAll(m, texts)[0] == MapText(m, texts[0]) && MapAll(m, texts)[1] == MapText(m, texts[1]);
  }

  lemma MeetingPoint(paths: seq<Str>, out: seq<Word>, t: Str, p: nat) returns (j: nat)
    requires [] in paths && |paths| <= |out| && InSome(WordsFrom(paths, out, t, 0), p)
    ensures 0 < j <= |t| && p in Ids(WordAt(paths, out, t, j))
  {
    var ws := WordsFrom(paths, out, t, 0);
    var i :| 0 <= i < |ws| && p in Ids(ws[i]);
    j := i + 1;
  }

  lemma SuffixLast(x: Str, w: Str)
    requires x != [] && IsSuffix(x, w)
    ensures Last(x) == Last(w)
  {
    assert w[|w| - |x|..][|x| - 1] == w[|w| - 1];
  }

  lemma EmptyWordHit(ac: Automaton, t: Str, p: nat, j: nat)
    requires ac.Valid() && p < WIDTH && p < |ac.pats| && ac.pats[p] == [] && 0 < j <= |t|
    ensures p in Ids(WordAt(ac.paths, ac.output[..], t, j)) <==> exists i: nat :: EmptyHitAt(ac.pats, t, i, j)
  {
    BeyondRoot(ac.paths, ac.pats, t, j);
    EmptyStateHit(ac, t, p, j);
    if Longest(ac.paths, t[..j]) != [] && !StartsPattern(ac.pats, t[j - 1]) {
      var i: nat :| i < j && PrefixOfSome(t[i..j], ac.pats, |ac.pats|);
      assert EmptyHitAt(ac.pats, t, i, j);
    }
  }

  lemma EmptyStateHit(ac: Automaton, t: Str, p: nat, j: nat)
    requires ac.Valid() && p < WIDTH && p < |ac.pats| && ac.pats[p] == [] && 0 < j <= |t|
    ensures p in Ids(WordAt(ac.paths, ac.output[..], t, j)) <==>
            Longest(ac.paths, t[..j]) != [] && !StartsPattern(ac.pats, t[j - 1])
  {
    var s := IndexOf(ac.paths, Longest(ac.paths, t[..j]));
    assert FinalState(ac.table, ac.output[..], ac.outputNext[..], ac.paths, ac.pats, s);
    EmptyWordAt(ac.paths, ac.pats, ac.output[..], t, j, p);
  }

  lemma EmptyWordAt(paths: seq<Str>, pats: seq<Str>, out: seq<Word>, t: Str, j: nat, p: nat)
    requires Paths(paths) && HasPatterns(paths, pats, |pats|) && FromPatterns(paths, pats, |pats|) && |paths| <= |out|
    requires 0 < j <= |t| && p < WIDTH && p < |pats| && pats[p] == []
    requires var s := IndexOf(paths, Longest(paths, t[..j])); FinalOutput(paths, pats, s, out[s])
    ensures p in Ids(WordAt(paths, out, t, j)) <==> Longest(paths, t[..j]) != [] && !StartsPattern(pats, t[j - 1])
  {
    var s := IndexOf(paths, Longest(paths, t[..j]));
    EmptyReport(paths, pats, s, out[s], t[..j], p);
    LastOfPrefix(t, j);
  }

  lemma LastOfPrefix(t: Str, j: nat)
    requires 0 < j <= |t|
    ensures Last(t[..j]) == t[j - 1]
  {
  }

  /** A state other than the root reports an empty pattern when the symbol just read starts no pattern. */
  lemma EmptyReport(paths: seq<Str>, pats: seq<Str>, s: nat, word: Word, u: Str, p: nat)
    requires Paths(paths) && HasPatterns(paths, pats, |pats|) && FromPatterns(paths, pats, |pats|)
    requires s < |paths| && u != [] && paths[s] == Longest(paths, u) && FinalOutput(paths, pats, s, word)
    requires p < WIDTH && p < |pats| && pats[p] == []
    ensures s != 0 && p in Ids(word) <==> paths[s] != [] && !StartsPattern(pats, Last(u))
  {
    SameState(paths, s, 0);
    DepthOne(paths, pats, Last(u));
    if paths[s] != [] {
      SuffixLast(paths[s], u);
    }
  }
}

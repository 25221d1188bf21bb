/** The automaton object and its construction: `cbm_ac_build` and its two phases. */
module AcAutomaton {
  import opened Prelude
  import opened AcSpec
  import opened AcTables
  import opened AcBfs
  import opened Word64

  /** `alpha_map` applied to every byte of a text or pattern. */
  function MapText(alphaMap: seq<nat>, text: seq<Byte>): (r: Str)
    requires |alphaMap| == BYTE_RANGE
    ensures |r| == |text| && forall i | 0 <= i < |text| :: r[i] == alphaMap[text[i]]
  {
    if text == [] then [] else [alphaMap[text[0]]] + MapText(alphaMap, text[1..])
  }

  lemma MapPrefix(alphaMap: seq<nat>, text: seq<Byte>, j: nat)
    requires |alphaMap| == BYTE_RANGE && j < |text|
    ensures MapText(alphaMap, text)[..j + 1] == MapText(alphaMap, text)[..j] + [alphaMap[text[j]]]
  {
  }

  lemma {:induction false} MapIdentity(alphaMap: seq<nat>, text: seq<Byte>)
    requires |alphaMap| == BYTE_RANGE && forall b | 0 <= b < BYTE_RANGE :: alphaMap[b] == b
    ensures MapText(alphaMap, text) == text
  {
  }

  lemma MapAt(alphaMap: seq<nat>, texts: seq<seq<Byte>>, i: nat)
    requires |alphaMap| == BYTE_RANGE && i < |texts|
    ensures MapAll(alphaMap, texts)[i] == MapText(alphaMap, texts[i])
  {
  }

  function MapAll(alphaMap: seq<nat>, texts: seq<seq<Byte>>): (r: seq<Str>)
    requires |alphaMap| == BYTE_RANGE
    ensures |r| == |texts| && forall i | 0 <= i < |texts| :: r[i] == MapText(alphaMap, texts[i])
  {
    if texts == [] then [] else [MapText(alphaMap, texts[0])] + MapAll(alphaMap, texts[1..])
  }

  ghost predicate SymbolsBelow(w: Str, A: nat) {
    forall i | 0 <= i < |w| :: w[i] < A
  }

  /** Everything about state s is final: its row, its output word, its output link. */
  ghost predicate FinalState(T: Table, out: seq<Word>, next: seq<int>, paths: seq<Str>, pats: seq<Str>, s: nat)
    requires Paths(paths) && s < |paths| <= |T| && |paths| <= |out| && |paths| <= |next|
  {
    FinalRow(paths, T[s], s) && FinalOutput(paths, pats, s, out[s]) && NextLink(paths, pats, s, next[s])
  }

  /** The finished automaton for a list of mapped patterns. */
  ghost predicate Complete(T: Table, out: seq<Word>, next: seq<int>, paths: seq<Str>, pats: seq<Str>) {
    && Paths(paths)
    && |paths| <= |T| && |paths| <= |out| && |paths| <= |next|
    && FromPatterns(paths, pats, |pats|)
    && HasPatterns(paths, pats, |pats|)
    && (forall s | 0 <= s < |paths| :: FinalState(T, out, next, paths, pats, s))
  }

  lemma SymbolOfState(paths: seq<Str>, pats: seq<Str>, A: nat, s: nat)
    requires Paths(paths) && FromPatterns(paths, pats, |pats|) && 0 < s < |paths|
    requires forall q | 0 <= q < |pats| :: SymbolsBelow(pats[q], A)
    ensures paths[s] != [] && Last(paths[s]) < A
  {
    assert HasParent(paths, s);
    assert PrefixOfSome(paths[s], pats, |pats|);
    var q :| 0 <= q < |pats| && paths[s] <= pats[q];
    assert SymbolsBelow(pats[q], A);
    assert paths[s][|paths[s]| - 1] == pats[q][|paths[s]| - 1];
  }

  lemma RootFinal(paths: seq<Str>, c: nat, t: int)
    requires Paths(paths) && TrieEntry(paths, 0, c, t)
    ensures FinalEntry(paths, 0, c, if t == NO_STATE then 0 else t)
  {
    assert paths[0] + [c] == [c];
    LongestOne(paths, c);
  }

  class Automaton {
    var numStates: nat
    var numPatterns: nat
    var alphaSize: nat
    var alphaMap: seq<nat>
    var goTable: array<int>
    var output: array<Word>
    var outputList: array<int>
    var outputNext: array<int>
    ghost var table: Table
    ghost var paths: seq<Str>
    ghost var pats: seq<Str>

    ghost predicate Shaped()
      reads this`alphaSize, this`alphaMap, this`table, this`pats
      reads this`goTable, this`output, this`outputList, this`outputNext, goTable
    {
      && alphaSize > 0
      && |alphaMap| == BYTE_RANGE
      && (forall b | 0 <= b < BYTE_RANGE :: alphaMap[b] < alphaSize)
      && |table| == output.Length && Flat(goTable[..], alphaSize, table)
      && outputList.Length == output.Length == outputNext.Length
      && goTable != outputList && goTable != outputNext && outputList != outputNext
      && (forall q | 0 <= q < |pats| :: SymbolsBelow(pats[q], alphaSize))
    }

    /** The finished automaton: every later scan relies on this and on nothing else. */
    ghost predicate Valid()
      reads this, goTable, output, outputNext
    {
      && Shaped()
      && numStates == |paths| <= output.Length
      && Complete(table, output[..], outputNext[..], paths, pats)
    }

    constructor (patterns: seq<seq<Byte>>, alphaMap: seq<nat>, alphaSize: nat, maxStates: nat)
      requires alphaSize > 0 && |alphaMap| == BYTE_RANGE && maxStates > 0
      requires forall b | 0 <= b < BYTE_RANGE :: alphaMap[b] < alphaSize
      ensures Shaped() && output.Length == maxStates && paths == [[]]
      ensures pats == MapAll(alphaMap, patterns) && numPatterns == |patterns|
      ensures this.alphaMap == alphaMap && this.alphaSize == alphaSize
      ensures fresh(goTable) && fresh(output) && fresh(outputList) && fresh(outputNext)
      ensures Trie(table, paths)
      ensures forall s | 0 <= s < maxStates :: output[s] == Zero()
      ensures forall s | 0 <= s < maxStates :: outputList[s] == NO_STATE && outputNext[s] == NO_STATE
    {
      this.alphaMap, this.alphaSize := alphaMap, alphaSize;
      numPatterns, numStates := |patterns|, 0;
      CellInTable(alphaSize, maxStates, 0, 0);
      goTable := new int[maxStates * alphaSize](_ => NO_STATE);
      output := new Word[maxStates](_ => Zero());
      outputList := new int[maxStates](_ => NO_STATE);
      outputNext := new int[maxStates](_ => NO_STATE);
      pats, paths := MapAll(alphaMap, patterns), [[]];
      table := seq(maxStates, _ => seq(alphaSize, _ => NO_STATE));
      new;
      forall s: nat, c: nat ensures CellIs(goTable[..], alphaSize, table, s, c) {
        if s < maxStates && c < alphaSize {
          CellInTable(alphaSize, maxStates, s, c);
        }
      }
      assert TrieRow(paths, table[0], 0);
    }

    /** `go_table[(s * alpha_size) + c]` */
    function Go(s: nat, c: nat): (t: int)
      requires Shaped() && s < output.Length && c < alphaSize
      reads this, goTable
      ensures t == table[s][c]
    {
      assert CellIs(goTable[..], alphaSize, table, s, c);
      goTable[s * alphaSize + c]
    }

    /** `go_table[(s * alpha_size) + c] = t` */
    method SetGo(s: nat, c: nat, t: int)
      requires Shaped() && s < output.Length && c < alphaSize
      modifies goTable, this`table
      ensures Shaped() && table == old(table)[s := old(table)[s][c := t]]
    {
      ghost var flat := goTable[..];
      FlatWrite(flat, alphaSize, table, s, c, t);
      goTable[s * alphaSize + c] := t;
      table := table[s := table[s][c := t]];
      assert goTable[..] == flat[s * alphaSize + c := t];
    }

    /** One symbol of a pattern: follow the child or create it. */
    method Follow(state: nat, c: nat, n: nat) returns (t: nat, n': nat)
      requires Shaped() && Trie(table, paths) && n == |paths| < output.Length
      requires state < n && c < alphaSize
      modifies goTable, this`table, this`paths
      ensures Shaped() && Trie(table, paths) && n <= n' == |paths|
      ensures t < n' && paths[t] == old(paths)[state] + [c]
      ensures paths == old(paths) || paths == old(paths) + [paths[t]]
      ensures paths != old(paths) ==> paths[t] !in old(paths)
    {
      n' := n;
      var t' := Go(state, c);
      assert TrieRow(paths, table[state], state);
      assert TrieEntry(paths, state, c, table[state][c]);
      if t' == NO_STATE {
        AddState(table, paths, state, c);
        SetGo(state, c, n');
        t', n' := n', n' + 1;
        paths := paths + [paths[state] + [c]];
      }
      t := t';
    }

    /** The trie together with the outputs of the first k patterns. */
    ghost predicate Loaded(k: nat)
      reads this, goTable, output, outputList
    {
      && Shaped()
      && k <= |pats|
      && Trie(table, paths)
      && HasPatterns(paths, pats, k)
      && (forall s | 0 <= s < output.Length :: Owns(paths, k, s))
    }

    /** What state s says about the first k patterns: the ones that end there. */
    ghost predicate Owns(paths: seq<Str>, k: nat, s: nat)
      requires k <= |pats| && s < output.Length == outputList.Length
      reads this`pats, this`output, this`outputList, output, outputList
    {
      OwnOutput(paths, pats, k, s, output[s]) && OwnList(paths, pats, k, s, outputList[s])
    }

    /** One symbol of pattern p. */
    method SpellOne(word: seq<Byte>, p: nat, j: nat, state: nat, n: nat) returns (state': nat, n': nat)
      requires Loaded(p) && p < |pats| && pats[p] == MapText(alphaMap, word) && FromPatterns(paths, pats, p + 1)
      requires n == |paths| < output.Length && j < |word| && state < n && paths[state] == pats[p][..j]
      modifies goTable, this`table, this`paths
      ensures Loaded(p) && FromPatterns(paths, pats, p + 1)
      ensures n' == |paths| <= n + 1 && state' < n' && paths[state'] == pats[p][..j + 1]
    {
      ghost var before := paths;
      MapPrefix(alphaMap, word, j);
      state', n' := Follow(state, alphaMap[word[j]], n);
      GrownLoaded(before, p);
    }

    /** The inner loop of `ac_build_trie`: spell pattern p from the root. */
    method Spell(word: seq<Byte>, p: nat, n: nat) returns (state: nat, n': nat)
      requires Loaded(p) && p < |pats| && pats[p] == MapText(alphaMap, word)
      requires FromPatterns(paths, pats, p)
      requires n == |paths| && n + |word| <= output.Length
      modifies goTable, this`table, this`paths
      ensures Loaded(p) && FromPatterns(paths, pats, p + 1)
      ensures n' == |paths| <= n + |word|
      ensures state < n' && paths[state] == pats[p]
    {
      state, n' := 0, n;
      var j := 0;
      MorePatterns(p);
      while j < |word|
        invariant 0 <= j <= |word|
        invariant Loaded(p) && FromPatterns(paths, pats, p + 1)
        invariant n' == |paths| <= n + j
        invariant state < n' && paths[state] == pats[p][..j]
      {
        state, n' := SpellOne(word, p, j, state, n');
        j := j + 1;
      }
      assert pats[p][..|word|] == pats[p];
    }

    lemma MorePatterns(p: nat)
      requires p < |pats| && FromPatterns(paths, pats, p)
      ensures FromPatterns(paths, pats, p + 1)
    {
      forall s | 0 < s < |paths| ensures PrefixOfSome(paths[s], pats, p + 1) {
        assert PrefixOfSome(paths[s], pats, p);
      }
    }

    /** Adding a state that ends no pattern so far keeps every output right. */
    lemma GrownLoaded(before: seq<Str>, p: nat)
      requires Shaped() && Trie(table, paths) && p < |pats|
      requires HasPatterns(before, pats, p) && FromPatterns(before, pats, p + 1)
      requires forall s | 0 <= s < output.Length :: Owns(before, p, s)
      requires paths == before || (|paths| == |before| + 1 && before <= paths && paths[|before|] !in before)
      requires |paths| > |before| ==> paths[|before|] <= pats[p]
      ensures Loaded(p) && FromPatterns(paths, pats, p + 1)
    {
      forall s | 0 < s < |paths| ensures PrefixOfSome(paths[s], pats, p + 1) {
        if s < |before| {
          assert PrefixOfSome(before[s], pats, p + 1);
        }
      }
      forall s | 0 <= s < output.Length
        ensures Owns(paths, p, s)
      {
        assert Owns(before, p, s);
      }
    }

    /** Marking the last state of pattern p. */
    method Mark(state: nat, p: nat)
      requires Loaded(p) && p < |pats| && state < |paths| && paths[state] == pats[p]
      modifies output, outputList
      ensures Loaded(p + 1)
    {
      if p < WIDTH {
        output[state] := Or(output[state], One(p));
      }
      outputList[state] := p;
      ghost var k := p + 1;
      forall s | 0 <= s < output.Length ensures Owns(paths, k, s) {
        assert old(Owns(paths, p, s));
        if s < |paths| {
          SameState(paths, s, state);
        }
      }
    }

    /** One round of the outer loop: spell pattern p, then mark its last state. */
    method AddPattern(word: seq<Byte>, p: nat, n: nat) returns (n': nat)
      requires Loaded(p) && p < |pats| && pats[p] == MapText(alphaMap, word)
      requires FromPatterns(paths, pats, p)
      requires output.Length == 1 + TotalLength(pats, |pats|)
      requires n == |paths| <= 1 + TotalLength(pats, p)
      modifies goTable, this`table, output, outputList, this`paths
      ensures Loaded(p + 1) && FromPatterns(paths, pats, p + 1)
      ensures n' == |paths| <= 1 + TotalLength(pats, p + 1)
    {
      TotalLengthGrows(pats, p + 1, |pats|);
      var state;
      state, n' := Spell(word, p, n);
      Mark(state, p);
    }

    /** After phase 1: the first k entries of the root row lead somewhere, the rest is a trie. */
    ghost predicate Rooted(k: nat)
      reads this, goTable, output, outputList
    {
      && Shaped()
      && Paths(paths) && |paths| <= output.Length
      && HasPatterns(paths, pats, |pats|) && FromPatterns(paths, pats, |pats|)
      && (forall s | 0 <= s < |paths| :: MixedRow(paths, table[s], s, if s == 0 then k else 0))
      && (forall s | 0 <= s < |paths| :: Owns(paths, |pats|, s))
    }

    /** One symbol of the root row. */
    method RootLoop(c: nat)
      requires Rooted(c) && c < alphaSize
      modifies goTable, this`table
      ensures Rooted(c + 1)
    {
      ghost var rows := table;
      assert MixedRow(paths, rows[0], 0, c);
      assert TrieEntry(paths, 0, c, rows[0][c]);
      RootFinal(paths, c, rows[0][c]);
      var t := Go(0, c);
      if t == NO_STATE {
        SetGo(0, c, 0);
        FillRow(paths, rows[0], 0, c, 0);
      } else {
        FillRow(paths, rows[0], 0, c, t);
        assert rows[0][c := t] == rows[0];
      }
      forall s | 0 <= s < |paths| ensures MixedRow(paths, table[s], s, if s == 0 then c + 1 else 0) {
        assert MixedRow(paths, rows[s], s, if s == 0 then c else 0);
      }
    }

    /** The root loops back to itself on every symbol that starts no pattern. */
    method RootLoops()
      requires Rooted(0)
      modifies goTable, this`table
      ensures Rooted(alphaSize)
    {
      var c := 0;
      while c < alphaSize
        invariant 0 <= c <= alphaSize
        invariant Rooted(c)
      {
        RootLoop(c);
        c := c + 1;
      }
    }

    /** Pattern p of the list. */
    method AddNth(patterns: seq<seq<Byte>>, p: nat, n: nat) returns (n': nat)
      requires Loaded(p) && p < |patterns| && pats == MapAll(alphaMap, patterns) && FromPatterns(paths, pats, p)
      requires output.Length == 1 + TotalLength(pats, |pats|) && n == |paths| <= 1 + TotalLength(pats, p)
      modifies goTable, this`table, output, outputList, this`paths
      ensures Loaded(p + 1) && FromPatterns(paths, pats, p + 1)
      ensures n' == |paths| <= 1 + TotalLength(pats, p + 1)
    {
      MapAt(alphaMap, patterns, p);
      n' := AddPattern(patterns[p], p, n);
    }

    /** The pattern loop of `ac_build_trie`. */
    method LoadPatterns(patterns: seq<seq<Byte>>) returns (n: nat)
      requires Loaded(0) && paths == [[]] && pats == MapAll(alphaMap, patterns)
      requires output.Length == 1 + TotalLength(pats, |pats|)
      modifies goTable, this`table, output, outputList, this`paths
      ensures Loaded(|pats|) && FromPatterns(paths, pats, |pats|)
      ensures n == |paths| <= 1 + TotalLength(pats, |pats|)
    {
      n := 1;
      var p := 0;
      while p < |patterns|
        invariant 0 <= p <= |patterns|
        invariant Loaded(p) && FromPatterns(paths, pats, p)
        invariant n == |paths| <= 1 + TotalLength(pats, p)
      {
        n := AddNth(patterns, p, n);
        p := p + 1;
      }
    }

    /** Phase 1, `ac_build_trie`. */
    method BuildTrie(patterns: seq<seq<Byte>>) returns (n: nat)
      requires Loaded(0) && paths == [[]] && pats == MapAll(alphaMap, patterns)
      requires output.Length == 1 + TotalLength(pats, |pats|)
      modifies goTable, this`table, output, outputList, this`paths
      ensures Rooted(alphaSize)
      ensures n == |paths| <= 1 + TotalLength(pats, |pats|)
    {
      n := LoadPatterns(patterns);
      forall s | 0 <= s < |paths| ensures MixedRow(paths, table[s], s, 0) {
        assert TrieRow(paths, table[s], s);
      }
      RootLoops();
    }

    // ----- phase 2 -----

    /** The search state held in the arrays. */
    ghost function Snapshot(fail: array<int>, data: array<int>, head: nat, tail: nat, c: nat): Bfs
      requires tail <= data.Length
      reads this, output, outputNext, fail, data
    {
      Bfs(table, data[..tail], head, c, fail[..], output[..], outputNext[..])
    }

    ghost predicate Searching(fail: array<int>, data: array<int>, head: nat, tail: nat, c: nat)
      reads this, goTable, output, outputList, outputNext, fail, data
    {
      && Shaped()
      && fail.Length == |paths| == data.Length && tail <= data.Length
      && fail != data && fail != goTable && fail != outputList && fail != outputNext
      && data != goTable && data != outputList && data != outputNext
      && Inv(paths, pats, alphaSize, Snapshot(fail, data, head, tail, c))
      && HasPatterns(paths, pats, |pats|) && FromPatterns(paths, pats, |pats|)
      && ListOk(paths, pats, outputList[..])
    }

    /** A missing transition is copied from the failure state's row. */
    method Fill(fail: array<int>, data: array<int>, head: nat, tail: nat, r: nat, c: nat)
      requires Searching(fail, data, head, tail, c)
      requires 0 < head <= tail && c < alphaSize && r == data[head - 1]
      requires 0 < r < |paths| && table[r][c] == NO_STATE
      modifies goTable, this`table
      ensures Searching(fail, data, head, tail, c + 1)
    {
      ghost var b := Snapshot(fail, data, head, tail, c);
      FillInv(paths, pats, alphaSize, b, r);
      var v := Go(fail[r], c);
      SetGo(r, c, v);
      assert Snapshot(fail, data, head, tail, c + 1) == Filled(b, r, v);
    }

    /** The stores made for a child s whose failure state is v. */
    method Link(fail: array<int>, data: array<int>, tail: nat, s: nat, v: nat)
      requires s < fail.Length <= output.Length == outputNext.Length == outputList.Length
      requires v < output.Length && tail < data.Length
      requires fail != data && fail != outputNext && data != outputNext
      requires outputList != fail && outputList != data && outputList != outputNext
      modifies fail, data, output, outputNext
      ensures fail[..] == old(fail[..])[s := v]
      ensures data[..tail + 1] == old(data[..tail]) + [s] && forall i | 0 <= i < tail :: data[i] == old(data[i])
      ensures output[..] == old(output[..])[s := Or(old(output[s]), old(output[v]))]
      ensures outputNext[..] == if old(outputNext[s]) == NO_STATE && outputList[v] != NO_STATE
                                then old(outputNext[..])[s := v] else old(outputNext[..])
    {
      fail[s] := v;
      output[s] := Or(output[s], output[fail[s]]);
      if outputNext[s] == NO_STATE && outputList[fail[s]] != NO_STATE {
        outputNext[s] := fail[s];
      }
      data[tail] := s;
    }

    /** A child is linked to its failure state, inherits its output and is queued. */
    method Push(fail: array<int>, data: array<int>, head: nat, tail: nat, r: nat, c: nat, s: nat)
      requires Searching(fail, data, head, tail, c)
      requires 0 < head <= tail && c < alphaSize && r == data[head - 1]
      requires 0 < r < |paths| && table[r][c] == s
      modifies fail, data, output, outputNext
      ensures Searching(fail, data, head, tail + 1, c + 1) && data[head - 1] == r
    {
      ghost var b := Snapshot(fail, data, head, tail, c);
      PushStep(paths, pats, alphaSize, b, r, outputList[..]);
      var v := Go(fail[r], c);
      Link(fail, data, tail, s, v);
      assert Snapshot(fail, data, head, tail + 1, c + 1) == Pushed(b, s, v, outputList[v] != NO_STATE);
    }

    /** One entry of the row being expanded. */
    method Expand(fail: array<int>, data: array<int>, head: nat, tail: nat, r: nat, c: nat) returns (tail': nat)
      requires Searching(fail, data, head, tail, c)
      requires 0 < head <= tail && c < alphaSize && r == data[head - 1] && 0 < r < |paths|
      modifies goTable, this`table, fail, data, output, outputNext
      ensures tail <= tail' && Searching(fail, data, head, tail', c + 1) && data[head - 1] == r
    {
      var s := Go(r, c);
      if s != NO_STATE {
        assert RowOk(paths, alphaSize, Snapshot(fail, data, head, tail, c), r);
        assert TrieEntry(paths, r, c, s);
        Push(fail, data, head, tail, r, c, s);
        tail' := tail + 1;
      } else {
        Fill(fail, data, head, tail, r, c);
        tail' := tail;
      }
    }

    /** One round of the search: pop a state and complete its row. */
    method ExpandRow(fail: array<int>, data: array<int>, head: nat, tail: nat) returns (tail': nat)
      requires Searching(fail, data, head, tail, alphaSize) && head < tail
      modifies goTable, this`table, fail, data, output, outputNext
      ensures tail <= tail' && Searching(fail, data, head + 1, tail', alphaSize)
    {
      PopReady(fail, data, head, tail);
      var r := data[head];
      tail' := tail;
      var c := 0;
      while c < alphaSize
        invariant 0 <= c <= alphaSize && tail <= tail'
        invariant Searching(fail, data, head + 1, tail', c) && data[head] == r
      {
        tail' := Expand(fail, data, head + 1, tail', r, c);
        c := c + 1;
      }
    }

    lemma PopReady(fail: array<int>, data: array<int>, head: nat, tail: nat)
      requires Searching(fail, data, head, tail, alphaSize) && head < tail
      ensures Searching(fail, data, head + 1, tail, 0) && 0 < data[head] < |paths|
    {
      ghost var b := Snapshot(fail, data, head, tail, alphaSize);
      forall s | 0 < s < |paths| ensures paths[s] != [] && Last(paths[s]) < alphaSize {
        SymbolOfState(paths, pats, alphaSize, s);
      }
      PopInv(paths, pats, alphaSize, b);
      Current(paths, b.queue, head + 1);
    }

    /** The root's child at symbol c, or the root itself when there is none. */
    method RootChild(c: nat) returns (s: nat)
      requires Rooted(alphaSize) && c < alphaSize
      ensures s < |paths| && if s != 0 then paths[s] == [c] else [c] !in paths
    {
      var t := Go(0, c);
      assert MixedRow(paths, table[0], 0, alphaSize);
      assert FinalEntry(paths, 0, c, t);
      RootEntry(paths, c, t);
      s := t;
    }

    /** One symbol of the seeding loop. */
    method SeedOne(fail: array<int>, data: array<int>, c: nat, tail: nat) returns (tail': nat)
      requires Rooted(alphaSize) && c < alphaSize && tail <= fail.Length == |paths| == data.Length
      requires fail != data && Seeded(paths, data[..tail], c)
      modifies fail, data
      ensures forall s | 0 <= s < fail.Length :: fail[s] == old(fail[s]) || fail[s] == 0
      ensures tail' <= data.Length && Seeded(paths, data[..tail'], c + 1)
    {
      var s := RootChild(c);
      ghost var q := data[..tail];
      tail' := tail;
      if s != 0 {
        SeedRoom(paths, q, c, s);
        fail[s] := 0;
        data[tail] := s;
        tail' := tail + 1;
        assert data[..tail'] == q + [s];
      } else {
        SeedNone(paths, q, c);
      }
    }

    /** The root's children enter the queue. */
    method Seed(fail: array<int>, data: array<int>) returns (tail: nat)
      requires Rooted(alphaSize) && fail.Length == |paths| == data.Length
      requires fail != data && fail != goTable && fail != outputList
      requires data != goTable && data != outputList
      requires forall s | 0 <= s < fail.Length :: fail[s] == 0
      modifies fail, data
      ensures forall s | 0 <= s < fail.Length :: fail[s] == 0
      ensures tail <= data.Length && Seeded(paths, data[..tail], alphaSize)
    {
      tail := 0;
      var c := 0;
      while c < alphaSize
        invariant 0 <= c <= alphaSize && tail <= data.Length && Rooted(alphaSize)
        invariant forall s | 0 <= s < fail.Length :: fail[s] == 0
        invariant Seeded(paths, data[..tail], c)
      {
        tail := SeedOne(fail, data, c, tail);
        c := c + 1;
      }
    }

    /** Phase 2, `ac_build_failure`. */
    method BuildFailure(n: nat)
      requires Rooted(alphaSize) && n == |paths|
      requires forall s | 0 <= s < outputNext.Length :: outputNext[s] == NO_STATE
      modifies goTable, this`table, output, outputNext
      ensures Shaped() && Complete(table, output[..], outputNext[..], paths, pats)
    {
      var fail, data := new int[n](_ => 0), new int[n](_ => 0);
      var tail := Seed(fail, data);
      StartReady(fail, data, tail);
      var head := 0;
      while head < tail
        invariant head <= tail
        invariant Searching(fail, data, head, tail, alphaSize)
        decreases |paths| - head
      {
        tail := ExpandRow(fail, data, head, tail);
        head := head + 1;
      }
      DoneReady(fail, data, head);
    }

    /** Both phases on freshly cleared tables. */
    method Construct(patterns: seq<seq<Byte>>) returns (n: nat)
      requires Loaded(0) && paths == [[]] && pats == MapAll(alphaMap, patterns)
      requires output.Length == 1 + TotalLength(pats, |pats|)
      requires forall s | 0 <= s < outputNext.Length :: outputNext[s] == NO_STATE
      modifies goTable, this`table, this`paths, output, outputList, outputNext
      ensures Shaped() && Complete(table, output[..], outputNext[..], paths, pats)
      ensures n == |paths| <= 1 + TotalLength(pats, |pats|)
    {
      n := BuildTrie(patterns);
      BuildFailure(n);
    }

    lemma StartReady(fail: array<int>, data: array<int>, tail: nat)
      requires Rooted(alphaSize) && fail.Length == |paths| == data.Length
      requires fail != data && fail != goTable && fail != outputList && fail != outputNext
      requires data != goTable && data != outputList && data != outputNext
      requires forall s | 0 <= s < fail.Length :: fail[s] == 0
      requires forall s | 0 <= s < outputNext.Length :: outputNext[s] == NO_STATE
      requires tail <= data.Length && Seeded(paths, data[..tail], alphaSize)
      ensures Searching(fail, data, 0, tail, alphaSize)
    {
      ghost var b := Snapshot(fail, data, 0, tail, alphaSize);
      forall t | 0 < t < |paths| && |paths[t]| == 1 ensures paths[t][0] < alphaSize {
        SymbolOfState(paths, pats, alphaSize, t);
      }
      forall s | 0 <= s < |paths|
        ensures OwnOutput(paths, pats, |pats|, s, b.output[s]) && OwnList(paths, pats, |pats|, s, outputList[..][s])
      {
        assert Owns(paths, |pats|, s);
      }
      StartInv(paths, pats, alphaSize, b);
    }

    lemma DoneReady(fail: array<int>, data: array<int>, head: nat)
      requires Searching(fail, data, head, head, alphaSize)
      ensures Complete(table, output[..], outputNext[..], paths, pats)
    {
      ghost var b := Snapshot(fail, data, head, head, alphaSize);
      forall s | 0 < s < |paths| ensures paths[s] != [] && Last(paths[s]) < alphaSize {
        SymbolOfState(paths, pats, alphaSize, s);
      }
      forall s | 0 <= s < |paths|
        ensures FinalState(b.table, b.output, b.next, paths, pats, s)
      {
        DoneState(paths, pats, alphaSize, b, s);
      }
    }
  }

  // ----- cbm_ac_build -----

  function IdentityMap(): (m: seq<nat>)
    ensures |m| == BYTE_RANGE && forall b | 0 <= b < BYTE_RANGE :: m[b] == b
  {
    seq(BYTE_RANGE, i => i)
  }

  datatype AlphaMap = Identity | Mapped(table: seq<nat>)

  /** `alpha_size <= 0` selects the full byte range. */
  function EffectiveSize(alphaSize: int): nat {
    if alphaSize <= 0 then BYTE_RANGE else alphaSize
  }

  /** The map in force: the caller's table, or every byte to itself. */
  function EffectiveMap(alphaMap: AlphaMap): (m: seq<nat>)
    ensures alphaMap.Mapped? ==> m == alphaMap.table
  {
    match alphaMap
    case Identity => IdentityMap()
    case Mapped(table) => table
  }

  /** One state for the root and one for every symbol of every pattern. */
  method MaxStates(patterns: seq<seq<Byte>>, ghost alphaMap: seq<nat>) returns (n: nat)
    requires |alphaMap| == BYTE_RANGE
    ensures n == 1 + TotalLength(MapAll(alphaMap, patterns), |patterns|)
  {
    ghost var pats := MapAll(alphaMap, patterns);
    n := 1;
    for i := 0 to |patterns|
      invariant n == 1 + TotalLength(pats, i)
    {
      n := n + |patterns[i]|;
    }
  }

  /** The cleared tables. */
  method Cleared(patterns: seq<seq<Byte>>, alphaMap: seq<nat>, alphaSize: nat) returns (ac: Automaton)
    requires alphaSize > 0 && |alphaMap| == BYTE_RANGE
    requires forall b | 0 <= b < BYTE_RANGE :: alphaMap[b] < alphaSize
    ensures fresh(ac) && fresh(ac.goTable) && fresh(ac.output) && fresh(ac.outputList) && fresh(ac.outputNext)
    ensures ac.Loaded(0) && ac.paths == [[]] && ac.pats == MapAll(alphaMap, patterns) && ac.numPatterns == |patterns|
    ensures ac.alphaMap == alphaMap && ac.alphaSize == alphaSize
    ensures ac.output.Length == 1 + TotalLength(ac.pats, |ac.pats|)
    ensures forall s | 0 <= s < ac.outputNext.Length :: ac.outputNext[s] == NO_STATE
  {
    var maxStates := MaxStates(patterns, alphaMap);
    ac := new Automaton(patterns, alphaMap, alphaSize, maxStates);
  }

  /** Both phases over a given alphabet. */
  method BuildOver(patterns: seq<seq<Byte>>, alphaMap: seq<nat>, alphaSize: nat) returns (ac: Automaton)
    requires alphaSize > 0 && |alphaMap| == BYTE_RANGE
    requires forall b | 0 <= b < BYTE_RANGE :: alphaMap[b] < alphaSize
    ensures fresh(ac) && ac.Valid()
    ensures ac.alphaMap == alphaMap && ac.alphaSize == alphaSize
    ensures ac.pats == MapAll(alphaMap, patterns) && ac.numPatterns == |patterns|
    ensures ac.numStates <= 1 + TotalLength(ac.pats, |patterns|)
  {
    ac := Cleared(patterns, alphaMap, alphaSize);
    var n := ac.Construct(patterns);
    ac.numStates := n;
  }

  /** `cbm_ac_build` */
  method Build(patterns: seq<seq<Byte>>, alphaMap: AlphaMap, alphaSize: int) returns (ac: Automaton?)
    requires |EffectiveMap(alphaMap)| == BYTE_RANGE
    requires forall b | 0 <= b < BYTE_RANGE :: EffectiveMap(alphaMap)[b] < EffectiveSize(alphaSize)
    ensures patterns == [] <==> ac == null
    ensures ac != null ==> fresh(ac) && ac.Valid()
    ensures ac != null && alphaMap.Mapped? ==> ac.alphaMap == alphaMap.table
    ensures ac != null && alphaMap.Identity? ==> |ac.alphaMap| == 256 && forall b | 0 <= b < 256 :: ac.alphaMap[b] == b
    ensures ac != null ==> ac.alphaMap == EffectiveMap(alphaMap) && ac.alphaSize == if alphaSize <= 0 then 256 else alphaSize
    ensures ac != null ==> ac.pats == MapAll(ac.alphaMap, patterns) && ac.numPatterns == |patterns|
    ensures ac != null ==> ac.numStates <= 1 + TotalLength(ac.pats, |patterns|)
  {
    if |patterns| == 0 {
      return null;
    }
    ac := BuildOver(patterns, EffectiveMap(alphaMap), EffectiveSize(alphaSize));
  }
}

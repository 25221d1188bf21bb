/**
 One step of the failure-link search as a transition on values, and the invariant that every
 step keeps: rows already expanded are complete, links and outputs of queued states are final.
 */
module AcBfs {
  import opened AcSpec
  import opened AcTables
  import opened Word64

  /** The mutable state of the search: tables, queue contents, queue head and symbol counter. */
  datatype Bfs = Bfs(table: Table, queue: seq<int>, head: nat, c: nat,
                     fail: seq<int>, output: seq<Word>, next: seq<int>)

  /** How many leading entries of row s are final. */
  ghost function Progress(b: Bfs, A: nat, s: int): nat
    requires b.head <= |b.queue|
  {
    if s == 0 then A
    else if b.head > 0 && s == b.queue[b.head - 1] then b.c
    else if s in b.queue[..b.head] then A
    else 0
  }

  /** The first k entries of row s are final, the rest still those of the trie. */
  ghost predicate MixedRow(paths: seq<Str>, row: seq<int>, s: nat, k: nat)
    requires Paths(paths) && s < |paths|
  {
    forall c | 0 <= c < |row| ::
      if c < k then FinalEntry(paths, s, c, row[c]) else TrieEntry(paths, s, c, row[c])
  }

  ghost predicate Sized(paths: seq<Str>, A: nat, b: Bfs) {
    && |paths| <= |b.table|
    && (forall s | 0 <= s < |b.table| :: |b.table[s]| == A)
    && |b.fail| == |paths| <= |b.output|
    && |b.next| == |b.output|
    && b.c <= A
  }

  /** Complete output word of state s. */
  ghost predicate FinalOutput(paths: seq<Str>, pats: seq<Str>, s: nat, w: Word)
    requires s < |paths|
  {
    forall p | 0 <= p < WIDTH :: w[p] <==> p < |pats| && Reports(paths, pats[p], paths[s])
  }

  /** `output_next[s]`: the failure state of a state of depth two or more, if a pattern ends there. */
  ghost predicate NextLink(paths: seq<Str>, pats: seq<Str>, s: nat, x: int)
    requires Paths(paths) && s < |paths|
  {
    if |paths[s]| >= 2 && Longest(paths, paths[s][1..]) in pats
    then FailLink(paths, s, x)
    else x == NO_STATE
  }

  ghost predicate Discovered(b: Bfs, s: int) {
    s == 0 || s in b.queue
  }

  ghost predicate RowOk(paths: seq<Str>, A: nat, b: Bfs, s: nat)
    requires Paths(paths) && s < |paths| && Sized(paths, A, b) && b.head <= |b.queue|
  {
    MixedRow(paths, b.table[s], s, Progress(b, A, s))
  }

  ghost predicate FailOk(paths: seq<Str>, A: nat, b: Bfs, s: nat)
    requires Paths(paths) && s < |paths| && Sized(paths, A, b)
  {
    s in b.queue ==> s != 0 && FailLink(paths, s, b.fail[s])
  }

  ghost predicate OutputOk(paths: seq<Str>, pats: seq<Str>, A: nat, b: Bfs, s: nat)
    requires Paths(paths) && s < |paths| && Sized(paths, A, b)
  {
    if Discovered(b, s)
    then FinalOutput(paths, pats, s, b.output[s]) && NextLink(paths, pats, s, b.next[s])
    else OwnOutput(paths, pats, |pats|, s, b.output[s]) && b.next[s] == NO_STATE
  }

  ghost predicate Inv(paths: seq<Str>, pats: seq<Str>, A: nat, b: Bfs) {
    && Paths(paths)
    && Sized(paths, A, b)
    && Queue(paths, b.queue, b.head, b.c)
    && (forall s | 0 <= s < |paths| :: RowOk(paths, A, b, s))
    && (forall s | 0 <= s < |paths| :: FailOk(paths, A, b, s))
    && (forall s | 0 <= s < |paths| :: OutputOk(paths, pats, A, b, s))
  }

  ghost predicate ListOk(paths: seq<Str>, pats: seq<Str>, list: seq<int>) {
    |paths| <= |list| && forall s | 0 <= s < |paths| :: OwnList(paths, pats, |pats|, s, list[s])
  }

  // ----- what a step leaves alone -----

  lemma KeepRow(paths: seq<Str>, A: nat, b: Bfs, b': Bfs, s: nat)
    requires Paths(paths) && s < |paths| && Sized(paths, A, b) && Sized(paths, A, b')
    requires b.head <= |b.queue| && b'.head <= |b'.queue|
    requires RowOk(paths, A, b, s) && b'.table[s] == b.table[s] && Progress(b', A, s) == Progress(b, A, s)
    ensures RowOk(paths, A, b', s)
  {
  }

  lemma KeepFail(paths: seq<Str>, A: nat, b: Bfs, b': Bfs, s: nat)
    requires Paths(paths) && s < |paths| && Sized(paths, A, b) && Sized(paths, A, b')
    requires FailOk(paths, A, b, s) && b'.fail[s] == b.fail[s] && (s in b'.queue ==> s in b.queue)
    ensures FailOk(paths, A, b', s)
  {
  }

  lemma KeepOutput(paths: seq<Str>, pats: seq<Str>, A: nat, b: Bfs, b': Bfs, s: nat)
    requires Paths(paths) && s < |paths| && Sized(paths, A, b) && Sized(paths, A, b')
    requires OutputOk(paths, pats, A, b, s) && b'.output[s] == b.output[s] && b'.next[s] == b.next[s]
    requires Discovered(b', s) <==> Discovered(b, s)
    ensures OutputOk(paths, pats, A, b', s)
  {
  }

  /** Popping the queue starts a new row at symbol 0. */
  ghost function Popped(b: Bfs): Bfs {
    b.(head := b.head + 1, c := 0)
  }

  lemma PopProgress(paths: seq<Str>, A: nat, b: Bfs, s: nat)
    requires QueueOrder(paths, b.queue, b.head) && b.head < |b.queue| && b.c == A
    ensures Progress(Popped(b), A, s) == Progress(b, A, s)
  {
    var q, h := b.queue, b.head;
    assert q[..h + 1] == q[..h] + [q[h]];
    assert InBand(paths, q, h, h);
    if s == q[h] {
      forall i | 0 <= i < h ensures q[i] != s {
        assert Ordered(paths, q, i, h);
      }
    }
  }

  lemma PopInv(paths: seq<Str>, pats: seq<Str>, A: nat, b: Bfs)
    requires Inv(paths, pats, A, b) && b.head < |b.queue| && b.c == A
    requires forall s | 0 < s < |paths| :: paths[s] != [] && Last(paths[s]) < A
    ensures Inv(paths, pats, A, Popped(b))
  {
    var b' := Popped(b);
    PopQueue(paths, b.queue, b.head, A);
    forall s | 0 <= s < |paths| ensures RowOk(paths, A, b', s) {
      PopProgress(paths, A, b, s);
      KeepRow(paths, A, b, b', s);
    }
    forall s | 0 <= s < |paths| ensures FailOk(paths, A, b', s) {
      KeepFail(paths, A, b, b', s);
    }
    forall s | 0 <= s < |paths| ensures OutputOk(paths, pats, A, b', s) {
      KeepOutput(paths, pats, A, b, b', s);
    }
  }

  // ----- reading through the failure link -----

  /** The failure row of the state being expanded is complete when it is read. */
  lemma FailRowFinal(paths: seq<Str>, pats: seq<Str>, A: nat, b: Bfs, r: nat)
    requires Inv(paths, pats, A, b) && 0 < b.head && b.c < A && r == b.queue[b.head - 1]
    ensures 0 < r < |paths| && FailLink(paths, r, b.fail[r]) && b.fail[r] != r
    ensures FinalEntry(paths, b.fail[r], b.c, b.table[b.fail[r]][b.c])
  {
    Current(paths, b.queue, b.head);
    assert FailOk(paths, A, b, r);
    var f := b.fail[r];
    assert HasParent(paths, r);
    assert |paths[f]| < |paths[r]|;
    if f != 0 {
      ShallowerFinished(paths, b.queue, b.head, b.c, f);
      var i :| 0 <= i < b.head - 1 && b.queue[i] == f;
      assert b.queue[..b.head][i] == f;
    }
    assert RowOk(paths, A, b, f);
  }

  /** One symbol past r, the longest proper suffix is found from r's failure state. */
  lemma FailStep(paths: seq<Str>, r: nat, f: nat, c: nat)
    requires Paths(paths) && 0 < r < |paths| && FailLink(paths, r, f)
    ensures Longest(paths, (paths[r] + [c])[1..]) == Longest(paths, paths[f] + [c])
  {
    assert HasParent(paths, r);
    assert (paths[r] + [c])[1..] == paths[r][1..] + [c];
    LongestStep(paths, paths[r][1..], c);
  }

  // ----- an entry with no child -----

  /** `go_table[idx] = go_table[fail[r] * alpha_size + c]` */
  ghost function Filled(b: Bfs, r: nat, v: int): Bfs
    requires r < |b.table| && b.c < |b.table[r]|
  {
    b.(table := b.table[r := b.table[r][b.c := v]], c := b.c + 1)
  }

  /** A missing entry is filled with its final value. */
  lemma FillEntry(paths: seq<Str>, r: nat, f: nat, c: nat, v: int)
    requires Paths(paths) && 0 < r < |paths| && FailLink(paths, r, f)
    requires TrieEntry(paths, r, c, NO_STATE) && FinalEntry(paths, f, c, v)
    ensures FinalEntry(paths, r, c, v)
  {
    FailStep(paths, r, f, c);
  }

  lemma FillRow(paths: seq<Str>, row: seq<int>, r: nat, c: nat, v: int)
    requires Paths(paths) && r < |paths| && c < |row|
    requires MixedRow(paths, row, r, c) && FinalEntry(paths, r, c, v)
    ensures MixedRow(paths, row[c := v], r, c + 1)
  {
  }

  lemma FilledAt(paths: seq<Str>, A: nat, b: Bfs, r: nat, v: int, s: nat)
    requires Sized(paths, A, b) && 0 < b.head <= |b.queue| && b.c < A
    requires r == b.queue[b.head - 1] && 0 < r < |paths| && s < |paths|
    ensures Sized(paths, A, Filled(b, r, v))
    ensures Filled(b, r, v).table[s] == if s == r then b.table[r][b.c := v] else b.table[s]
    ensures Progress(Filled(b, r, v), A, s) == if s == r then b.c + 1 else Progress(b, A, s)
  {
  }

  lemma FillInv(paths: seq<Str>, pats: seq<Str>, A: nat, b: Bfs, r: nat)
    requires Inv(paths, pats, A, b) && 0 < b.head && b.c < A && r == b.queue[b.head - 1]
    requires 0 < r < |paths| && b.table[r][b.c] == NO_STATE
    ensures 0 <= b.fail[r] < |paths|
    ensures Inv(paths, pats, A, Filled(b, r, b.table[b.fail[r]][b.c]))
  {
    FailRowFinal(paths, pats, A, b, r);
    var v := b.table[b.fail[r]][b.c];
    var b' := Filled(b, r, v);
    assert RowOk(paths, A, b, r);
    assert TrieEntry(paths, r, b.c, NO_STATE);
    SkipQueue(paths, b.queue, b.head, b.c);
    FillEntry(paths, r, b.fail[r], b.c, v);
    FillRow(paths, b.table[r], r, b.c, v);
    FilledAt(paths, A, b, r, v, r);
    forall s | 0 <= s < |paths| ensures RowOk(paths, A, b', s) {
      FilledAt(paths, A, b, r, v, s);
      if s != r {
        KeepRow(paths, A, b, b', s);
      }
    }
    forall s | 0 <= s < |paths| ensures FailOk(paths, A, b', s) {
      KeepFail(paths, A, b, b', s);
    }
    forall s | 0 <= s < |paths| ensures OutputOk(paths, pats, A, b', s) {
      KeepOutput(paths, pats, A, b, b', s);
    }
  }

  // ----- an entry with a child -----

  /** The child s is linked to v, inherits v's output and joins the queue. */
  ghost function Pushed(b: Bfs, s: nat, v: nat, linked: bool): Bfs
    requires s < |b.fail| <= |b.output| == |b.next| && v < |b.output|
  {
    b.(fail := b.fail[s := v],
       output := b.output[s := Or(b.output[s], b.output[v])],
       next := if b.next[s] == NO_STATE && linked then b.next[s := v] else b.next,
       queue := b.queue + [s],
       c := b.c + 1)
  }

  /** What the child inherits is final by now: its failure state is queued or the root. */
  lemma InheritedFinal(paths: seq<Str>, pats: seq<Str>, A: nat, b: Bfs, s: nat, v: nat)
    requires Inv(paths, pats, A, b) && 0 < b.head && 0 < s < |paths| && v < |paths|
    requires 0 < b.queue[b.head - 1] < |paths|
    requires FailLink(paths, s, v) && |paths[s]| <= |paths[b.queue[b.head - 1]]| + 1
    ensures Discovered(b, v)
  {
    assert HasParent(paths, s);
    if v != 0 {
      ShallowerFinished(paths, b.queue, b.head, b.c, v);
    }
  }

  lemma PushOutput(paths: seq<Str>, pats: seq<Str>, s: nat, v: nat, own: Word, inherited: Word)
    requires Paths(paths) && HasPatterns(paths, pats, |pats|)
    requires 0 < s < |paths| && |paths[s]| >= 2 && FailLink(paths, s, v)
    requires OwnOutput(paths, pats, |pats|, s, own) && FinalOutput(paths, pats, v, inherited)
    ensures FinalOutput(paths, pats, s, Or(own, inherited))
  {
    forall p | 0 <= p < WIDTH
      ensures Or(own, inherited)[p] <==> p < |pats| && Reports(paths, pats[p], paths[s])
    {
      if p < |pats| {
        ReportsInherited(paths, pats[p], paths[s]);
      }
    }
  }

  lemma PushNext(paths: seq<Str>, pats: seq<Str>, s: nat, v: nat, list: seq<int>)
    requires Paths(paths) && ListOk(paths, pats, list)
    requires 0 < s < |paths| && |paths[s]| >= 2 && FailLink(paths, s, v)
    ensures NextLink(paths, pats, s, if list[v] != NO_STATE then v else NO_STATE)
  {
    assert OwnList(paths, pats, |pats|, v, list[v]);
    assert pats[..|pats|] == pats;
  }

  /** A distinct list of numbers from 1 to n - 1 is shorter than n: the queue never overflows. */
  lemma {:induction false} QueueFits(q: seq<int>, n: nat)
    requires n > 0
    requires forall i | 0 <= i < |q| :: 0 < q[i] < n
    requires forall i, j | 0 <= i < j < |q| :: q[i] != q[j]
    ensures |q| < n
    decreases n
  {
    if q != [] {
      assert q[0] < n;
      if k :| 0 <= k < |q| && q[k] == n - 1 {
        QueueFits(q[..k] + q[k + 1..], n - 1);
      } else {
        QueueFits(q, n - 1);
      }
    }
  }

  /** The child s of r at symbol c, and the failure state v read for it. */
  ghost predicate ChildStep(paths: seq<Str>, A: nat, b: Bfs, r: nat, s: nat, v: nat)
    requires Paths(paths)
  {
    && Sized(paths, A, b)
    && 0 < b.head <= |b.queue| && b.c < A
    && r == b.queue[b.head - 1] && 0 < r < |paths|
    && 0 < s < |paths| && v < |paths|
    && paths[s] == paths[r] + [b.c] && |paths[s]| >= 2
    && s !in b.queue
    && FailLink(paths, s, v)
  }

  lemma ChildLink(paths: seq<Str>, r: nat, f: nat, c: nat, s: nat, v: int)
    requires Paths(paths) && 0 < r < |paths| && FailLink(paths, r, f)
    requires s < |paths| && paths[s] == paths[r] + [c] && FinalEntry(paths, f, c, v)
    ensures 0 < s && |paths[s]| >= 2 && FailLink(paths, s, v)
  {
    assert HasParent(paths, r);
    FailStep(paths, r, f, c);
  }

  lemma FindChild(paths: seq<Str>, pats: seq<Str>, A: nat, b: Bfs, r: nat)
    requires Inv(paths, pats, A, b) && 0 < b.head && b.c < A && r == b.queue[b.head - 1]
    requires 0 < r < |paths| && b.table[r][b.c] != NO_STATE
    ensures 0 < r < |paths| && 0 <= b.fail[r] < |paths|
    ensures 0 < b.table[r][b.c] < |paths| && 0 <= b.table[b.fail[r]][b.c] < |paths|
    ensures ChildStep(paths, A, b, r, b.table[r][b.c], b.table[b.fail[r]][b.c])
  {
    FailRowFinal(paths, pats, A, b, r);
    assert RowOk(paths, A, b, r);
    var s := b.table[r][b.c];
    assert TrieEntry(paths, r, b.c, s);
    ChildLink(paths, r, b.fail[r], b.c, s, b.table[b.fail[r]][b.c]);
    ChildFresh(paths, b.queue, b.head, b.c, s);
  }

  lemma PushInv(paths: seq<Str>, pats: seq<Str>, A: nat, b: Bfs, r: nat, s: nat, v: nat, list: seq<int>)
    requires Inv(paths, pats, A, b) && ChildStep(paths, A, b, r, s, v) && b.table[r][b.c] == s
    requires HasPatterns(paths, pats, |pats|) && ListOk(paths, pats, list)
    ensures Inv(paths, pats, A, Pushed(b, s, v, list[v] != NO_STATE))
  {
    var b' := Pushed(b, s, v, list[v] != NO_STATE);
    PushQueue(paths, b.queue, b.head, b.c, s);
    InheritedFinal(paths, pats, A, b, s, v);
    assert OutputOk(paths, pats, A, b, s) && OutputOk(paths, pats, A, b, v);
    PushOutput(paths, pats, s, v, b.output[s], b.output[v]);
    PushNext(paths, pats, s, v, list);
    forall t | 0 <= t < |paths| ensures RowOk(paths, A, b', t) {
      PushRow(paths, A, b, b', r, t);
    }
    forall t | 0 <= t < |paths| ensures FailOk(paths, A, b', t) {
      if t != s {
        KeepFail(paths, A, b, b', t);
      }
    }
    forall t | 0 <= t < |paths| ensures OutputOk(paths, pats, A, b', t) {
      if t != s {
        KeepOutput(paths, pats, A, b, b', t);
      }
    }
  }

  /** The queue has room for the child. */
  lemma RoomForChild(paths: seq<Str>, pats: seq<Str>, A: nat, b: Bfs, r: nat, s: nat, v: nat)
    requires Inv(paths, pats, A, b) && ChildStep(paths, A, b, r, s, v)
    ensures |b.queue| + 1 < |paths|
  {
    var q' := b.queue + [s];
    PushOrder(paths, b.queue, b.head, s);
    forall i | 0 <= i < |q'| ensures 0 < q'[i] < |paths| {
      assert InBand(paths, q', b.head, i);
    }
    forall i, j | 0 <= i < j < |q'| ensures q'[i] != q'[j] {
      assert Ordered(paths, q', i, j);
    }
    QueueFits(q', |paths|);
  }

  /** A child entry of the trie is already its final value. */
  lemma PushRow(paths: seq<Str>, A: nat, b: Bfs, b': Bfs, r: nat, t: nat)
    requires Paths(paths) && Sized(paths, A, b) && Sized(paths, A, b') && 0 < b.head <= |b.queue|
    requires r == b.queue[b.head - 1] && 0 < r < |paths| && b.c < A && t < |paths|
    requires RowOk(paths, A, b, t) && b.table[r][b.c] != NO_STATE
    requires b'.table == b.table && b'.head == b.head && b'.c == b.c + 1 && b.queue <= b'.queue
    ensures RowOk(paths, A, b', t)
  {
    assert b'.queue[..b.head] == b.queue[..b.head];
    if t == r {
      assert TrieEntry(paths, r, b.c, b.table[r][b.c]);
    }
  }

  /** Everything one child step does, with every index it uses in range. */
  lemma PushStep(paths: seq<Str>, pats: seq<Str>, A: nat, b: Bfs, r: nat, list: seq<int>)
    requires Inv(paths, pats, A, b) && 0 < b.head && b.c < A && r == b.queue[b.head - 1]
    requires 0 < r < |paths| && b.table[r][b.c] != NO_STATE
    requires HasPatterns(paths, pats, |pats|) && ListOk(paths, pats, list)
    ensures 0 <= b.fail[r] < |paths| && |b.queue| + 1 < |paths|
    ensures 0 < b.table[r][b.c] < |paths| && 0 <= b.table[b.fail[r]][b.c] < |paths|
    ensures var s, v := b.table[r][b.c], b.table[b.fail[r]][b.c];
            Inv(paths, pats, A, Pushed(b, s, v, list[v] != NO_STATE))
  {
    FindChild(paths, pats, A, b, r);
    var s, v := b.table[r][b.c], b.table[b.fail[r]][b.c];
    RoomForChild(paths, pats, A, b, r, s, v);
    PushInv(paths, pats, A, b, r, s, v, list);
  }

  // ----- seeding the queue with the root's children -----

  ghost predicate SeededIff(paths: seq<Str>, q: seq<int>, c: nat, t: nat)
    requires t < |paths|
  {
    t in q <==> |paths[t]| == 1 && paths[t][0] < c
  }

  /** The children of the root at symbols below c, in symbol order. */
  ghost predicate Seeded(paths: seq<Str>, q: seq<int>, c: nat) {
    && (forall i | 0 <= i < |q| :: 0 < q[i] < |paths|)
    && (forall i, j | 0 <= i < j < |q| :: q[i] != q[j])
    && (forall t | 0 <= t < |paths| :: SeededIff(paths, q, c, t))
    && (forall i, j | 0 <= i < j < |q| :: InSymbolOrder(paths, q, i, j))
  }

  /** Positions i < j hold children of the root, the earlier one at the smaller symbol. */
  ghost predicate InSymbolOrder(paths: seq<Str>, q: seq<int>, i: nat, j: nat)
    requires i < j < |q|
  {
    && 0 <= q[i] < |paths| && 0 <= q[j] < |paths|
    && |paths[q[i]]| == |paths[q[j]]| == 1 && paths[q[i]][0] < paths[q[j]][0]
  }

  lemma RootEntry(paths: seq<Str>, c: nat, s: nat)
    requires Paths(paths) && FinalEntry(paths, 0, c, s)
    ensures if s != 0 then paths[s] == [c] else [c] !in paths
  {
    assert paths[0] + [c] == [c];
    LongestOne(paths, c);
    if s == 0 {
    } else {
      assert HasParent(paths, s);
    }
  }

  lemma SeedChild(paths: seq<Str>, q: seq<int>, c: nat, s: nat)
    requires Paths(paths) && Seeded(paths, q, c) && 0 < s < |paths| && paths[s] == [c]
    ensures Seeded(paths, q + [s], c + 1)
  {
    assert SeededIff(paths, q, c, s);
    var q', d := q + [s], c + 1;
    forall t | 0 <= t < |paths| ensures SeededIff(paths, q', d, t) {
      assert SeededIff(paths, q, c, t);
      SameState(paths, s, t);
      if |paths[t]| == 1 && paths[t][0] == c {
        assert paths[t] == [c];
      }
    }
    forall i, j | 0 <= i < j < |q'| ensures InSymbolOrder(paths, q', i, j) {
      assert SeededIff(paths, q, c, q[i]);
      if j < |q| {
        assert InSymbolOrder(paths, q, i, j);
      }
    }
  }

  lemma SeedRoom(paths: seq<Str>, q: seq<int>, c: nat, s: nat)
    requires Paths(paths) && Seeded(paths, q, c) && 0 < s < |paths| && paths[s] == [c]
    ensures |q| < |paths| && Seeded(paths, q + [s], c + 1)
  {
    SeedChild(paths, q, c, s);
    QueueFits(q + [s], |paths|);
  }

  lemma SeedNone(paths: seq<Str>, q: seq<int>, c: nat)
    requires Seeded(paths, q, c) && [c] !in paths
    ensures Seeded(paths, q, c + 1)
  {
    var d := c + 1;
    forall t | 0 <= t < |paths| ensures SeededIff(paths, q, d, t) {
      assert SeededIff(paths, q, c, t);
      assert |paths[t]| == 1 ==> paths[t] == [paths[t][0]];
    }
  }

  /** The state the search starts in. */
  ghost predicate Start(paths: seq<Str>, pats: seq<Str>, A: nat, b: Bfs) {
    && Paths(paths) && Sized(paths, A, b) && HasPatterns(paths, pats, |pats|)
    && b.head == 0 && b.c == A
    && (forall t | 0 < t < |paths| && |paths[t]| == 1 :: paths[t][0] < A)
    && Seeded(paths, b.queue, A)
    && (forall s | 0 <= s < |paths| :: MixedRow(paths, b.table[s], s, if s == 0 then A else 0))
    && (forall s | 0 <= s < |paths| :: b.fail[s] == 0)
    && (forall s | 0 <= s < |paths| :: OwnOutput(paths, pats, |pats|, s, b.output[s]))
    && (forall s | 0 <= s < |paths| :: b.next[s] == NO_STATE)
  }

  lemma StartInv(paths: seq<Str>, pats: seq<Str>, A: nat, b: Bfs)
    requires Start(paths, pats, A, b)
    ensures Inv(paths, pats, A, b)
  {
    forall t | 0 < t < |paths| ensures QueuedIffReached(paths, b.queue, 0, A, t) {
      assert HasParent(paths, t) && SeededIff(paths, b.queue, A, t);
    }
    forall i | 0 <= i < |b.queue| ensures InBand(paths, b.queue, 0, i) && |paths[b.queue[i]]| == 1 {
      assert SeededIff(paths, b.queue, A, b.queue[i]);
    }
    forall i, j | 0 <= i < j < |b.queue| ensures Ordered(paths, b.queue, i, j) {
    }
    forall s | 0 <= s < |paths|
      ensures RowOk(paths, A, b, s) && FailOk(paths, A, b, s) && OutputOk(paths, pats, A, b, s)
    {
      StartState(paths, pats, A, b, s);
      StartOutput(paths, pats, A, b, s);
    }
  }

  lemma StartState(paths: seq<Str>, pats: seq<Str>, A: nat, b: Bfs, s: nat)
    requires Start(paths, pats, A, b) && s < |paths|
    ensures RowOk(paths, A, b, s) && FailOk(paths, A, b, s)
  {
    assert MixedRow(paths, b.table[s], s, if s == 0 then A else 0);
    assert SeededIff(paths, b.queue, A, s);
    if s in b.queue {
      assert paths[s][1..] == [];
    }
  }

  lemma StartOutput(paths: seq<Str>, pats: seq<Str>, A: nat, b: Bfs, s: nat)
    requires Start(paths, pats, A, b) && s < |paths|
    ensures OutputOk(paths, pats, A, b, s)
  {
    assert SeededIff(paths, b.queue, A, s);
    assert OwnOutput(paths, pats, |pats|, s, b.output[s]);
    if Discovered(b, s) {
      ShallowOutput(paths, pats, s, b.output[s]);
    }
  }

  lemma ShallowOutput(paths: seq<Str>, pats: seq<Str>, s: nat, w: Word)
    requires Paths(paths) && s < |paths| && |paths[s]| <= 1 && OwnOutput(paths, pats, |pats|, s, w)
    ensures FinalOutput(paths, pats, s, w)
  {
    forall p | 0 <= p < WIDTH ensures w[p] <==> p < |pats| && Reports(paths, pats[p], paths[s]) {
      if p < |pats| {
        ReportsShallow(paths, pats[p], paths[s]);
      }
    }
  }

  /** With the queue empty, every row, output and link is final. */
  lemma DoneState(paths: seq<Str>, pats: seq<Str>, A: nat, b: Bfs, s: nat)
    requires Inv(paths, pats, A, b) && b.head == |b.queue| && b.c == A && s < |paths|
    requires forall t | 0 < t < |paths| :: paths[t] != [] && Last(paths[t]) < A
    ensures FinalRow(paths, b.table[s], s)
    ensures FinalOutput(paths, pats, s, b.output[s])
    ensures NextLink(paths, pats, s, b.next[s])
  {
    if s != 0 {
      AllQueued(paths, b.queue, A, s);
      assert b.queue[..b.head] == b.queue;
    }
    assert RowOk(paths, A, b, s) && OutputOk(paths, pats, A, b, s);
  }
}

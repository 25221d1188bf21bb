/**
 The tables of the automaton as values: the flat goto array seen as rows, and the facts that
 the two building phases keep about rows, failure links, outputs and the work queue.
 */
module AcTables {
  import opened AcSpec
  import opened Word64

  const NO_STATE: int := -1

  type Table = seq<seq<int>>

  // ----- the flat array as rows -----

  /** Every row has one entry per symbol. */
  ghost predicate Rectangular(T: Table, A: nat) {
    forall s | 0 <= s < |T| :: |T[s]| == A
  }

  /** Entry (s, c) of the table is `go_table[s * A + c]`. */
  ghost predicate CellIs(flat: seq<int>, A: nat, T: Table, s: nat, c: nat) {
    s < |T| && c < |T[s]| ==> 0 <= s * A + c < |flat| && flat[s * A + c] == T[s][c]
  }

  /** The flat array holds the table row by row. */
  ghost predicate Flat(flat: seq<int>, A: nat, T: Table) {
    Rectangular(T, A) && forall s: nat, c: nat :: CellIs(flat, A, T, s, c)
  }

  /** A row ends before any later row begins. */
  lemma {:induction false} RowsApart(A: nat, s: nat, s': nat)
    requires s < s'
    ensures 0 <= s * A && s * A + A <= s' * A
    decreases s'
  {
    var t := s' - 1;
    assert s' * A == t * A + A;
    if s < t {
      RowsApart(A, s, t);
    }
  }

  lemma CellInTable(A: nat, n: nat, s: nat, c: nat)
    requires s < n && c < A
    ensures 0 <= s * A <= s * A + c < n * A
  {
    RowsApart(A, s, n);
  }

  /** Different entries are different cells. */
  lemma CellsDiffer(A: nat, s: nat, c: nat, s': nat, c': nat)
    requires c < A && c' < A && s * A + c == s' * A + c'
    ensures s == s' && c == c'
  {
    if s < s' {
      RowsApart(A, s, s');
    } else if s' < s {
      RowsApart(A, s', s);
    }
  }

  lemma FlatWrite(flat: seq<int>, A: nat, T: Table, s: nat, c: nat, v: int)
    requires Flat(flat, A, T) && s < |T| && c < A
    ensures 0 <= s * A + c < |flat| && Flat(flat[s * A + c := v], A, T[s := T[s][c := v]])
  {
    assert CellIs(flat, A, T, s, c);
    var flat', T' := flat[s * A + c := v], T[s := T[s][c := v]];
    forall s': nat, c': nat ensures CellIs(flat', A, T', s', c') {
      assert CellIs(flat, A, T, s', c');
      if s' < |T| && c' < A && s' * A + c' == s * A + c {
        CellsDiffer(A, s, c, s', c');
      }
    }
  }

  // ----- phase 1: the trie -----

  ghost predicate TrieEntry(paths: seq<Str>, s: nat, c: nat, t: int)
    requires s < |paths|
  {
    if t == NO_STATE then paths[s] + [c] !in paths
    else 0 <= t < |paths| && paths[t] == paths[s] + [c]
  }

  ghost predicate TrieRow(paths: seq<Str>, row: seq<int>, s: nat)
    requires s < |paths|
  {
    forall c | 0 <= c < |row| :: TrieEntry(paths, s, c, row[c])
  }

  ghost predicate Trie(T: Table, paths: seq<Str>) {
    && Paths(paths)
    && |paths| <= |T|
    && (forall s | 0 <= s < |paths| :: TrieRow(paths, T[s], s))
    && (forall s, c | |paths| <= s < |T| && 0 <= c < |T[s]| :: T[s][c] == NO_STATE)
  }

  lemma SnocApart(paths: seq<Str>, t: nat, d: nat, s: nat, c: nat)
    requires Paths(paths) && t < |paths| && s < |paths|
    ensures paths[t] + [d] == paths[s] + [c] <==> t == s && d == c
  {
    SameState(paths, t, s);
    if paths[t] + [d] == paths[s] + [c] {
      assert Init(paths[t] + [d]) == paths[t] && Init(paths[s] + [c]) == paths[s];
      assert Last(paths[t] + [d]) == d;
    }
  }

  /** A fresh state: `go_table[idx] = num_states++`. */
  lemma AddState(T: Table, paths: seq<Str>, s: nat, c: nat)
    requires Trie(T, paths) && s < |paths| < |T| && c < |T[s]| && T[s][c] == NO_STATE
    ensures Trie(T[s := T[s][c := |paths|]], paths + [paths[s] + [c]])
  {
    var w := paths[s] + [c];
    var paths' := paths + [w];
    var T' := T[s := T[s][c := |paths|]];
    assert TrieEntry(paths, s, c, T[s][c]);
    assert w !in paths;
    assert Init(w) == paths[s];
    forall t, u | 0 <= t < u < |paths'| ensures Apart(paths', t, u) {
      if u < |paths| {
        assert Apart(paths, t, u);
      }
    }
    forall t | 0 < t < |paths'| ensures HasParent(paths', t) {
      if t < |paths| {
        assert HasParent(paths, t);
      }
    }
    forall t, d | 0 <= t < |paths'| && 0 <= d < |T'[t]| ensures TrieEntry(paths', t, d, T'[t][d]) {
      if t < |paths| {
        assert TrieRow(paths, T[t], t) && TrieEntry(paths, t, d, T[t][d]);
        SnocApart(paths, t, d, s, c);
      } else if w + [d] in paths' {
        assert |w + [d]| != |w|;
        SnocIsPath(paths, w, d);
      }
    }
  }

  ghost predicate PrefixOfSome(w: Str, pats: seq<Str>, k: nat)
    requires k <= |pats|
  {
    exists q :: 0 <= q < k && w <= pats[q]
  }

  /** Every state is a prefix of one of the first k patterns. */
  ghost predicate FromPatterns(paths: seq<Str>, pats: seq<Str>, k: nat)
    requires k <= |pats|
  {
    forall s | 0 < s < |paths| :: PrefixOfSome(paths[s], pats, k)
  }

  /** Every one of the first k patterns ends at a state. */
  ghost predicate HasPatterns(paths: seq<Str>, pats: seq<Str>, k: nat)
    requires k <= |pats|
  {
    forall q | 0 <= q < k :: pats[q] in paths
  }

  /** Bit q of a state's word: one of the first k patterns, namely q, ends there. */
  ghost predicate OwnOutput(paths: seq<Str>, pats: seq<Str>, k: nat, s: nat, w: Word)
    requires k <= |pats|
  {
    forall q | 0 <= q < WIDTH :: w[q] <==> q < k && s < |paths| && pats[q] == paths[s]
  }

  /** `output_list[s]`: some pattern that ends at s, or none. */
  ghost predicate OwnList(paths: seq<Str>, pats: seq<Str>, k: nat, s: nat, p: int)
    requires k <= |pats|
  {
    if p == NO_STATE then s < |paths| ==> paths[s] !in pats[..k]
    else 0 <= p < k && s < |paths| && pats[p] == paths[s]
  }

  function TotalLength(pats: seq<Str>, k: nat): nat
    requires k <= |pats|
  {
    if k == 0 then 0 else TotalLength(pats, k - 1) + |pats[k - 1]|
  }

  lemma {:induction false} TotalLengthGrows(pats: seq<Str>, j: nat, k: nat)
    requires j <= k <= |pats|
    ensures TotalLength(pats, j) <= TotalLength(pats, k)
  {
    if j < k {
      TotalLengthGrows(pats, j, k - 1);
    }
  }

  // ----- phase 2: failure links and the complete table -----

  ghost predicate FinalEntry(paths: seq<Str>, s: nat, c: nat, t: int)
    requires Paths(paths) && s < |paths|
  {
    0 <= t < |paths| && paths[t] == Longest(paths, paths[s] + [c])
  }

  ghost predicate FinalRow(paths: seq<Str>, row: seq<int>, s: nat)
    requires Paths(paths) && s < |paths|
  {
    forall c | 0 <= c < |row| :: FinalEntry(paths, s, c, row[c])
  }

  /** `fail[s]` is the longest proper suffix of s that is a state. */
  ghost predicate FailLink(paths: seq<Str>, s: nat, f: int)
    requires Paths(paths) && s < |paths|
  {
    0 < |paths[s]| && 0 <= f < |paths| && paths[f] == Longest(paths, paths[s][1..])
  }

  /** q[i] is the parent of t, and t's symbol has been handled in q[i]'s row. */
  ghost predicate Via(paths: seq<Str>, q: seq<int>, head: nat, c: nat, t: nat, i: nat)
    requires t < |paths| && paths[t] != []
  {
    && i < head <= |q|
    && 0 <= q[i] < |paths|
    && paths[q[i]] == Init(paths[t])
    && (i < head - 1 || Last(paths[t]) < c)
  }

  /** State t is queued once the search has done q[..head-1] and symbols below c of q[head-1]. */
  ghost predicate Reached(paths: seq<Str>, q: seq<int>, head: nat, c: nat, t: nat)
    requires t < |paths| && paths[t] != []
  {
    |paths[t]| == 1 || exists i: nat :: Via(paths, q, head, c, t, i)
  }

  ghost predicate QueuedIffReached(paths: seq<Str>, q: seq<int>, head: nat, c: nat, t: nat)
    requires t < |paths|
  {
    paths[t] != [] && (t in q <==> Reached(paths, q, head, c, t))
  }

  /** Positions i < j of the queue hold different states, the earlier one no deeper. */
  ghost predicate Ordered(paths: seq<Str>, q: seq<int>, i: nat, j: nat)
    requires i < j < |q|
  {
    && 0 < q[i] < |paths| && 0 < q[j] < |paths|
    && q[i] != q[j]
    && |paths[q[i]]| <= |paths[q[j]]|
  }

  /** Position i of the queue holds a state at most one deeper than the one being expanded. */
  ghost predicate InBand(paths: seq<Str>, q: seq<int>, head: nat, i: nat)
    requires head <= |q| && i < |q|
  {
    && 0 < q[i] < |paths|
    && if head == 0 then |paths[q[i]]| <= 1
       else 0 < q[head - 1] < |paths| && |paths[q[i]]| <= |paths[q[head - 1]]| + 1
  }

  /** The queue is in order of depth, no state twice, and spans at most two depths past its head. */
  ghost predicate QueueOrder(paths: seq<Str>, q: seq<int>, head: nat) {
    && head <= |q|
    && (forall i, j | 0 <= i < j < |q| :: Ordered(paths, q, i, j))
    && (forall i | 0 <= i < |q| :: InBand(paths, q, head, i))
  }

  /** The work queue: in order, and holding exactly the reached states. */
  ghost predicate Queue(paths: seq<Str>, q: seq<int>, head: nat, c: nat) {
    && QueueOrder(paths, q, head)
    && (forall t | 0 < t < |paths| :: QueuedIffReached(paths, q, head, c, t))
  }

  /** The state being expanded. */
  lemma Current(paths: seq<Str>, q: seq<int>, head: nat)
    requires QueueOrder(paths, q, head) && head > 0
    ensures 0 < q[head - 1] < |paths|
  {
    assert InBand(paths, q, head, head - 1);
  }

  lemma ShallowIndex(paths: seq<Str>, q: seq<int>, head: nat, t: nat)
    requires QueueOrder(paths, q, head) && head > 0 && t in q
    requires t < |paths| && 0 < q[head - 1] < |paths| && |paths[t]| < |paths[q[head - 1]]|
    ensures t in q[..head - 1]
  {
    var i :| 0 <= i < |q| && q[i] == t;
    assert head - 1 < i ==> Ordered(paths, q, head - 1, i);
    assert q[..head - 1][i] == t;
  }

  /**
   Breadth-first order: when a state is expanded, every state no deeper is already queued and
   every shallower one is finished.
   */
  lemma {:induction false} ShallowerFinished(paths: seq<Str>, q: seq<int>, head: nat, c: nat, t: nat)
    requires Paths(paths) && Queue(paths, q, head, c) && head > 0
    requires 0 < t < |paths| && 0 < q[head - 1] < |paths| && |paths[t]| <= |paths[q[head - 1]]|
    ensures t in q
    ensures |paths[t]| < |paths[q[head - 1]]| ==> t in q[..head - 1]
    decreases |paths[t]|
  {
    assert QueuedIffReached(paths, q, head, c, t);
    if |paths[t]| > 1 {
      var u := Parent(paths, t);
      ShallowerFinished(paths, q, head, c, u);
      var i :| 0 <= i < head - 1 && q[i] == u;
      assert Via(paths, q, head, c, t, i);
    }
    if |paths[t]| < |paths[q[head - 1]]| {
      ShallowIndex(paths, q, head, t);
    }
  }

  /** When the queue has run dry, every state but the root has been through it. */
  lemma {:induction false} AllQueued(paths: seq<Str>, q: seq<int>, c: nat, t: nat)
    requires Paths(paths) && Queue(paths, q, |q|, c) && 0 < t < |paths|
    requires forall s | 0 < s < |paths| :: paths[s] != [] && Last(paths[s]) < c
    ensures t in q
    decreases |paths[t]|
  {
    assert QueuedIffReached(paths, q, |q|, c, t);
    if |paths[t]| > 1 {
      var u := Parent(paths, t);
      AllQueued(paths, q, c, u);
      var i :| 0 <= i < |q| && q[i] == u;
      assert Via(paths, q, |q|, c, t, i);
    }
  }

  /** Popping starts a new row at symbol 0 and reaches nothing new. */
  lemma PopQueue(paths: seq<Str>, q: seq<int>, head: nat, A: nat)
    requires Queue(paths, q, head, A) && head < |q|
    requires forall s | 0 < s < |paths| :: paths[s] != [] && Last(paths[s]) < A
    ensures Queue(paths, q, head + 1, 0)
  {
    var h := head + 1;
    forall i | 0 <= i < |q| ensures InBand(paths, q, h, i) {
      assert InBand(paths, q, head, i) && InBand(paths, q, head, head);
      if 0 < head {
        assert Ordered(paths, q, head - 1, head);
      }
    }
    forall t | 0 < t < |paths| ensures QueuedIffReached(paths, q, h, 0, t) {
      assert QueuedIffReached(paths, q, head, A, t);
      if Reached(paths, q, head, A, t) && |paths[t]| != 1 {
        var i: nat :| Via(paths, q, head, A, t, i);
        assert Via(paths, q, head + 1, 0, t, i);
      }
      if Reached(paths, q, head + 1, 0, t) && |paths[t]| != 1 {
        var i: nat :| Via(paths, q, head + 1, 0, t, i);
        assert Via(paths, q, head, A, t, i);
      }
    }
  }

  /** A symbol with no child reaches nothing new. */
  lemma SkipQueue(paths: seq<Str>, q: seq<int>, head: nat, c: nat)
    requires Queue(paths, q, head, c) && 0 < head && 0 < q[head - 1] < |paths|
    requires paths[q[head - 1]] + [c] !in paths
    ensures Queue(paths, q, head, c + 1)
  {
    var d := c + 1;
    forall t | 0 < t < |paths| ensures QueuedIffReached(paths, q, head, d, t) {
      assert QueuedIffReached(paths, q, head, c, t);
      if Reached(paths, q, head, c, t) && |paths[t]| != 1 {
        var i: nat :| Via(paths, q, head, c, t, i);
        assert Via(paths, q, head, c + 1, t, i);
      }
      if Reached(paths, q, head, c + 1, t) && |paths[t]| != 1 {
        var i: nat :| Via(paths, q, head, c + 1, t, i);
        assert paths[t] == Init(paths[t]) + [Last(paths[t])];
        assert Via(paths, q, head, c, t, i);
      }
    }
  }

  /** The child found at symbol c is not queued yet. */
  lemma ChildFresh(paths: seq<Str>, q: seq<int>, head: nat, c: nat, s: nat)
    requires Paths(paths) && Queue(paths, q, head, c) && 0 < head && 0 < s < |paths|
    requires 0 < q[head - 1] < |paths| && paths[s] == paths[q[head - 1]] + [c]
    ensures s !in q
  {
    assert Init(paths[s]) == paths[q[head - 1]] && Last(paths[s]) == c;
    assert QueuedIffReached(paths, q, head, c, s);
    assert HasParent(paths, q[head - 1]);
    forall i: nat | i < head - 1 ensures q[i] != q[head - 1] {
      assert Ordered(paths, q, i, head - 1);
    }
    if i: nat :| Via(paths, q, head, c, s, i) {
      SameState(paths, q[i], q[head - 1]);
      assert false;
    }
  }

  lemma PushOrder(paths: seq<Str>, q: seq<int>, head: nat, s: nat)
    requires QueueOrder(paths, q, head) && 0 < head && 0 < s < |paths| && s !in q
    requires 0 < q[head - 1] < |paths| && |paths[s]| == |paths[q[head - 1]]| + 1
    ensures QueueOrder(paths, q + [s], head)
  {
    var q' := q + [s];
    forall i | 0 <= i < |q'| ensures InBand(paths, q', head, i) {
      if i < |q| {
        assert InBand(paths, q, head, i);
      }
    }
    forall i, j | 0 <= i < j < |q'| ensures Ordered(paths, q', i, j) {
      assert InBand(paths, q, head, i);
      if j < |q| {
        assert Ordered(paths, q, i, j);
      }
    }
  }

  /** Queueing the child found at symbol c reaches exactly that child. */
  lemma PushQueue(paths: seq<Str>, q: seq<int>, head: nat, c: nat, s: nat)
    requires Paths(paths) && Queue(paths, q, head, c) && 0 < head && 0 < s < |paths|
    requires 0 < q[head - 1] < |paths| && paths[s] == paths[q[head - 1]] + [c]
    ensures Queue(paths, q + [s], head, c + 1)
  {
    var q' := q + [s];
    ChildFresh(paths, q, head, c, s);
    PushOrder(paths, q, head, s);
    assert Init(paths[s]) == paths[q[head - 1]] && Last(paths[s]) == c;
    var d := c + 1;
    forall t | 0 < t < |paths| ensures QueuedIffReached(paths, q', head, d, t) {
      assert QueuedIffReached(paths, q, head, c, t);
      if t == s {
        assert Via(paths, q', head, c + 1, t, head - 1);
      } else {
        if Reached(paths, q, head, c, t) && |paths[t]| != 1 {
          var i: nat :| Via(paths, q, head, c, t, i);
          assert Via(paths, q', head, c + 1, t, i);
        }
        if Reached(paths, q', head, c + 1, t) && |paths[t]| != 1 {
          var i: nat :| Via(paths, q', head, c + 1, t, i);
          assert paths[t] == Init(paths[t]) + [Last(paths[t])];
          SameState(paths, s, t);
          assert Via(paths, q, head, c, t, i);
        }
      }
    }
  }
}

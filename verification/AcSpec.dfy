/**
 What the multi-pattern matcher is for, stated without any automaton: which words a set of
 patterns makes interesting, the longest interesting suffix of a text, and occurrence.
 */
module AcSpec {
  /** A string over the mapped alphabet. */
  type Str = seq<nat>

  ghost predicate IsSuffix(x: Str, w: Str) {
    x == w || (|x| < |w| && w[|w| - |x|..] == x)
  }

  ghost predicate OccursAt(x: Str, w: Str, i: nat) {
    i + |x| <= |w| && w[i..i + |x|] == x
  }

  /** x is a contiguous substring of w. */
  ghost predicate Occurs(x: Str, w: Str) {
    exists i: nat :: OccursAt(x, w, i)
  }

  ghost function Init(w: Str): Str
    requires w != []
  {
    w[..|w| - 1]
  }

  ghost function Last(w: Str): nat
    requires w != []
  {
    w[|w| - 1]
  }

  ghost predicate HasParent(paths: seq<Str>, s: nat)
    requires s < |paths|
  {
    paths[s] != [] && Init(paths[s]) in paths
  }

  ghost predicate Apart(paths: seq<Str>, s: nat, t: nat)
    requires s < |paths| && t < |paths|
  {
    paths[s] != paths[t]
  }

  /** The state paths: the root first, no word twice, every other word's parent present. */
  ghost predicate Paths(paths: seq<Str>) {
    && |paths| > 0
    && paths[0] == []
    && (forall s, t | 0 <= s < t < |paths| :: Apart(paths, s, t))
    && (forall s | 0 < s < |paths| :: HasParent(paths, s))
  }

  /** A word names at most one state. */
  lemma SameState(paths: seq<Str>, s: nat, t: nat)
    requires Paths(paths) && s < |paths| && t < |paths|
    ensures paths[s] == paths[t] <==> s == t
  {
    if s != t {
      assert Apart(paths, if s < t then s else t, if s < t then t else s);
    }
  }

  lemma Parent(paths: seq<Str>, t: nat) returns (u: nat)
    requires Paths(paths) && 0 < t < |paths|
    ensures paths[t] != [] && u < |paths| && paths[u] == Init(paths[t])
  {
    assert HasParent(paths, t);
    u :| 0 <= u < |paths| && paths[u] == Init(paths[t]);
  }

  /** The longest suffix of w that is the path of a state. */
  ghost function Longest(paths: seq<Str>, w: Str): (r: Str)
    requires [] in paths
    ensures r in paths && IsSuffix(r, w)
  {
    if w in paths then w else Longest(paths, w[1..])
  }

  ghost function IndexOf(paths: seq<Str>, w: Str): (s: nat)
    requires w in paths
    ensures s < |paths| && paths[s] == w
  {
    if paths[0] == w then 0 else 1 + IndexOf(paths[1..], w)
  }

  lemma LongestOne(paths: seq<Str>, c: nat)
    requires [] in paths
    ensures Longest(paths, [c]) == if [c] in paths then [c] else []
  {
    assert [c][1..] == [];
  }

  lemma SuffixTail(x: Str, w: Str)
    requires w != [] && x != w
    ensures IsSuffix(x, w) <==> IsSuffix(x, w[1..])
  {
    if |x| < |w| {
      assert w[|w| - |x|..] == w[1..][|w| - 1 - |x|..];
    }
  }

  lemma SuffixTrans(x: Str, y: Str, w: Str)
    requires IsSuffix(x, y) && IsSuffix(y, w)
    ensures IsSuffix(x, w)
  {
    assert w[|w| - |x|..] == w[|w| - |y|..][|y| - |x|..];
  }

  /** Longest really is longest: every state path that is a suffix of w is a suffix of it. */
  lemma {:induction false} LongestIsLongest(paths: seq<Str>, w: Str, x: Str)
    requires [] in paths && x in paths && IsSuffix(x, w)
    ensures IsSuffix(x, Longest(paths, w))
  {
    if w !in paths {
      SuffixTail(x, w);
      LongestIsLongest(paths, w[1..], x);
    }
  }

  lemma SnocIsPath(paths: seq<Str>, w: Str, c: nat)
    requires Paths(paths) && w + [c] in paths
    ensures w in paths
  {
    var s :| 0 <= s < |paths| && paths[s] == w + [c];
    assert HasParent(paths, s);
    assert Init(paths[s]) == w;
  }

  /** The automaton law: only the longest interesting suffix matters for what comes next. */
  lemma {:induction false} LongestStep(paths: seq<Str>, w: Str, c: nat)
    requires Paths(paths)
    ensures Longest(paths, w + [c]) == Longest(paths, Longest(paths, w) + [c])
  {
    if w !in paths {
      if w + [c] in paths {
        SnocIsPath(paths, w, c);
        assert false;
      }
      assert (w + [c])[1..] == w[1..] + [c];
      LongestStep(paths, w[1..], c);
    }
  }

  /**
   What the automaton says about pattern x in the state with path w. A non-empty pattern is
   reported exactly when it ends here. The empty pattern is reported exactly when the symbol
   just read starts no state path, because states of depth one do not inherit the root's output.
   */
  ghost predicate Reports(paths: seq<Str>, x: Str, w: Str) {
    if x == [] then w == [] || [Last(w)] !in paths else IsSuffix(x, w)
  }

  /** How outputs are inherited along a failure link of a state of depth two or more. */
  lemma ReportsInherited(paths: seq<Str>, x: Str, w: Str)
    requires Paths(paths) && x in paths && |w| >= 2
    ensures Reports(paths, x, w) <==> x == w || Reports(paths, x, Longest(paths, w[1..]))
  {
    var f := Longest(paths, w[1..]);
    if x == [] {
      if [Last(w)] in paths {
        assert IsSuffix([Last(w)], w[1..]);
        LongestIsLongest(paths, w[1..], [Last(w)]);
        assert f != [];
      }
      if f != [] {
        assert Last(f) == Last(w);
      }
    } else if x != w {
      SuffixTail(x, w);
      if IsSuffix(x, w[1..]) {
        LongestIsLongest(paths, w[1..], x);
      }
      if IsSuffix(x, f) {
        SuffixTrans(x, f, w[1..]);
      }
    }
  }

  /** States of depth zero and one report exactly the patterns that end at them. */
  lemma ReportsShallow(paths: seq<Str>, x: Str, w: Str)
    requires Paths(paths) && w in paths && |w| <= 1
    ensures Reports(paths, x, w) <==> x == w
  {
    if |w| == 1 {
      assert w == [Last(w)];
      if x != [] && IsSuffix(x, w) {
        assert |x| == 1 && w[0..] == w;
      }
    }
  }

  /** Reporting in the longest-suffix state of w is reporting for w itself, when w was read. */
  lemma ReportsOfLongest(paths: seq<Str>, x: Str, w: Str)
    requires Paths(paths) && x in paths && w != []
    ensures Reports(paths, x, Longest(paths, w)) <==>
            if x == [] then [Last(w)] !in paths else IsSuffix(x, w)
  {
    var f := Longest(paths, w);
    if x == [] {
      if [Last(w)] in paths {
        assert IsSuffix([Last(w)], w);
        LongestIsLongest(paths, w, [Last(w)]);
      }
      if f != [] {
        assert Last(f) == Last(w);
      }
    } else {
      if IsSuffix(x, w) {
        LongestIsLongest(paths, w, x);
      }
      if IsSuffix(x, f) {
        SuffixTrans(x, f, w);
      }
    }
  }

  /** x ends at position i of w. */
  ghost predicate EndsAt(x: Str, w: Str, i: nat) {
    0 < i <= |w| && IsSuffix(x, w[..i])
  }

  lemma EndsWhereItOccurs(x: Str, w: Str, i: nat)
    requires x != [] && i + |x| <= |w|
    ensures OccursAt(x, w, i) <==> EndsAt(x, w, i + |x|)
  {
    assert w[..i + |x|][i..] == w[i..i + |x|];
  }

  /** x occurs in w exactly when it ends at some position of w. */
  lemma OccursEndsSomewhere(x: Str, w: Str)
    requires x != []
    ensures Occurs(x, w) <==> exists i: nat :: EndsAt(x, w, i)
  {
    if Occurs(x, w) {
      var i: nat :| OccursAt(x, w, i);
      EndsWhereItOccurs(x, w, i);
    }
    if exists i: nat :: EndsAt(x, w, i) {
      var i: nat :| EndsAt(x, w, i);
      EndsWhereItOccurs(x, w, i - |x|);
    }
  }
}

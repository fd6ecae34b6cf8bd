/** Why a victim can always be found: too few entries can have been seen lately. */
module CacheRoom {
  import opened Automaton
  import opened CompactNfa
  import opened Simulation
  import opened CacheLinks
  import opened CacheState

  predicate Evictable(e: SSet, ancient: int) { (e.lastseen == NONE || e.lastseen < ancient) && !e.locked }

  /** Entries last seen before this position are expendable. */
  function Ancient(cp: int, start: int, n: nat): int {
    if cp - start > n * 2 / 3 then cp - n * 2 / 3 else start
  }

  // ----- counting

  function Interval(lo: int, hi: int): set<int>
    decreases hi - lo
  {
    if lo < hi then Interval(lo, hi - 1) + {hi - 1} else {}
  }

  lemma {:induction false} IntervalSize(lo: int, hi: int)
    ensures |Interval(lo, hi)| == if lo < hi then hi - lo else 0
    ensures forall k: int :: k in Interval(lo, hi) <==> lo <= k < hi
    decreases hi - lo
  {
    if lo < hi {
      IntervalSize(lo, hi - 1);
    }
  }

  /** The stamps of entries 1, ..., n - 1. */
  function Stamps(s: seq<SSet>, n: nat): set<int>
    requires n <= |s|
  {
    set i | 1 <= i < n :: s[i].lastseen
  }

  lemma {:induction false} StampsSize(s: seq<SSet>, n: nat)
    requires 1 <= n <= |s|
    requires forall i, j :: 1 <= i < j < n ==> s[i].lastseen != s[j].lastseen
    ensures |Stamps(s, n)| == n - 1
  {
    if n == 1 {
      assert Stamps(s, n) == {};
    } else {
      StampsSize(s, n - 1);
      assert Stamps(s, n) == Stamps(s, n - 1) + {s[n - 1].lastseen};
      assert s[n - 1].lastseen !in Stamps(s, n - 1);
    }
  }

  /** Different stamps between `lo` and `hi` are at most `hi - lo` in number. */
  lemma FewStamps(s: seq<SSet>, n: nat, lo: int, hi: int)
    requires 1 <= n <= |s|
    requires forall i, j :: 1 <= i < j < n ==> s[i].lastseen != s[j].lastseen
    requires forall i :: 1 <= i < n ==> lo <= s[i].lastseen < hi
    ensures n == 1 || n - 1 <= hi - lo
  {
    StampsSize(s, n);
    IntervalSize(lo, hi);
    assert Stamps(s, n) <= Interval(lo, hi);
    SubsetSize(Stamps(s, n), Interval(lo, hi));
  }

  lemma SubsetSize(a: set<int>, b: set<int>)
    requires a <= b
    ensures |a| <= |b|
  {
    assert b == a + (b - a);
  }

  // ----- very small automata

  /** Pre is in no state set of an attempt, or in all of them. */
  ghost predicate Uniform(c: Cnfa, t: Text) {
    || (forall a :: a in ArcsOf(c) ==> a.to != c.pre)
    || (&& (forall p :: 0 <= p < |t.col| ==> Arc(Plain, t.col[p], c.pre, c.pre) in ArcsOf(c))
        && Arc(Plain, Bos(c, t), c.pre, c.pre) in ArcsOf(c))
  }

  lemma PreNeverEntered(c: Cnfa, t: Text, S: set<nat>, co: int, pos: int)
    requires WellFormed(c) && forall a :: a in ArcsOf(c) ==> a.to != c.pre
    ensures c.pre !in Delta(c, t, S, co, pos)
  {
    if Steps(c, t, S, co, pos, c.pre) {
      var a, n: nat :| a in ArcsOf(c) && a.from in S && LookPath(c, t, pos, a.to, c.pre, n);
      EntersBy(c, t, pos, a.to, c.pre, n);
    }
  }

  lemma {:induction false} EntersBy(c: Cnfa, t: Text, pos: int, u: nat, q: nat, n: nat)
    requires LookPath(c, t, pos, u, q, n)
    ensures u == q || exists a :: a in ArcsOf(c) && a.to == q
    decreases n
  {
    if n > 0 {
      var a := PathFirst(FrameOf(c, t.holds, pos), ArcsOf(c), [], u, 0, q, 0, n);
      EntersBy(c, t, pos, a.to, q, n - 1);
    }
  }

  lemma {:induction false} PreUniform(c: Cnfa, t: Text, b: nat, p: nat)
    requires WellFormed(c) && Uniform(c, t) && b <= p <= |t.col|
    ensures c.pre in SetAt(c, t, b, p) <==> exists a :: a in ArcsOf(c) && a.to == c.pre
    decreases p
  {
    var S, co := if p == b then {c.pre} else SetAt(c, t, b, p - 1), if p == b then Prev(c, t, b) else t.col[p - 1];
    if p == b { FirstSet(c, t, b); } else { NextSet(c, t, b, p - 1); PreUniform(c, t, b, p - 1); }
    if a :| a in ArcsOf(c) && a.to == c.pre {
      var loop := Arc(Plain, co, c.pre, c.pre);
      assert loop in ArcsOf(c) && loop.from in S && LookPath(c, t, p, loop.to, c.pre, 0);
      assert Steps(c, t, S, co, p, c.pre);
    } else {
      PreNeverEntered(c, t, S, co, p);
    }
  }

  lemma OneOfTwo(pre: nat, u: nat, S: set<nat>)
    requires {pre, u} == {0, 1} && forall q :: q in S ==> q < 2
    ensures S == {} || S == {pre} || S == {u} || S == {pre, u}
  {
    assert forall q :: q in S ==> q == pre || q == u;
    assert pre in S && u in S ==> S == {pre, u};
    assert pre in S && u !in S ==> S == {pre};
    assert pre !in S && u in S ==> S == {u};
  }

  // ----- room

  /** The cache is at least as big as the executor makes it. */
  ghost predicate BigEnough(c: Cnfa, t: Text, n: nat) {
    n >= 7 || (n == 2 * c.nstates && Uniform(c, t))
  }

  /** If no entry could be replaced, the entries but the starter would hold the state
      sets of different positions since `Ancient`. */
  lemma AllRecent(c: Cnfa, t: Text, s: seq<SSet>, n: nat, b: nat, cur: int, cp: int)
    requires 1 <= n == |s| && Sized(s, c.ncolors) && cur <= |t.col| && cur <= cp <= cur + 1 && b <= cp
    requires Coherent(c, t, s, n, NONE) && Stamped(c, t, s, n, b, cur, NONE)
    requires forall i :: 0 <= i < n ==> !Evictable(s[i], Ancient(cp, b, n))
    ensures forall i :: 1 <= i < n ==> b <= s[i].lastseen <= cur && s[i].states == SetAt(c, t, b, s[i].lastseen)
    ensures n == 1 || n - 1 <= n * 2 / 3 + (cur + 1 - cp)
  {
    var ancient := Ancient(cp, b, n);
    forall i | 1 <= i < n
      ensures ancient <= s[i].lastseen <= cur && b <= s[i].lastseen && s[i].states == SetAt(c, t, b, s[i].lastseen)
    {
      assert GoodEntry(c, s, i) && GoodStamp(c, t, s, b, cur, i);
      assert !Evictable(s[i], ancient);
    }
    forall i, j | 1 <= i < j < n ensures s[i].lastseen != s[j].lastseen {
      assert s[i].states != s[j].states;
    }
    FewStamps(s, n, ancient, cur + 1);
  }

  /** With two states, the cache never gets full. */
  lemma TwoStates(c: Cnfa, t: Text, s: seq<SSet>)
    requires WellFormed(c) && c.nstates == 2 && |s| >= 4 && Sized(s, c.ncolors)
    ensures !Coherent(c, t, s, |s|, NONE)
  {
    if Coherent(c, t, s, |s|, NONE) {
      var u := 1 - c.pre;
      assert s[1].states != s[2].states && s[2].states != s[3].states && s[1].states != s[3].states;
      forall i | 1 <= i < 4 ensures s[i].states == {u} || s[i].states == {c.pre, u} {
        assert GoodEntry(c, s, i) && GoodEntry(c, s, 0) && s[0].states != s[i].states;
        OneOfTwo(c.pre, u, s[i].states);
      }
    }
  }

  ghost predicate PreEntered(c: Cnfa) { exists a :: a in ArcsOf(c) && a.to == c.pre }

  /** A state set that a later entry can hold. */
  ghost predicate SmallSet(c: Cnfa, S: set<nat>) {
    S != {} && S != {c.pre} && (forall q :: q in S ==> q < c.nstates) && (c.pre in S <==> PreEntered(c))
  }

  lemma SameSmall(c: Cnfa, S: set<nat>, T: set<nat>, u: nat, v: nat)
    requires SmallSet(c, S) && SmallSet(c, T) && c.nstates == 3 && {c.pre, u, v} == {0, 1, 2}
    ensures (u in S) == (u in T) && (v in S) == (v in T) ==> S == T
    ensures u in S || v in S
  {
    assert forall q :: q in S || q in T ==> q == c.pre || q == u || q == v;
    assert u !in S && v !in S ==> S == {} || S == {c.pre};
  }

  /** With three states there are no four such sets. */
  lemma TwoOfFourAlike(c: Cnfa, R: set<nat>, S: set<nat>, T: set<nat>, U: set<nat>)
    requires c.nstates == 3 && c.pre < 3
    requires SmallSet(c, R) && SmallSet(c, S) && SmallSet(c, T) && SmallSet(c, U)
    ensures R == S || R == T || R == U || S == T || S == U || T == U
  {
    var u := if c.pre == 0 then 1 else 0;
    var v := if c.pre == 2 then 1 else 2;
    SameSmall(c, R, S, u, v);
    SameSmall(c, R, T, u, v);
    SameSmall(c, R, U, u, v);
    SameSmall(c, S, T, u, v);
    SameSmall(c, S, U, u, v);
    SameSmall(c, T, U, u, v);
    SameSmall(c, U, U, u, v);
  }

  lemma SmallEntry(c: Cnfa, t: Text, s: seq<SSet>, b: nat, cur: int, i: nat)
    requires WellFormed(c) && Uniform(c, t) && 1 <= i < |s| && Sized(s, c.ncolors) && Coherent(c, t, s, |s|, NONE)
    requires b <= s[i].lastseen <= cur <= |t.col| && s[i].states == SetAt(c, t, b, s[i].lastseen)
    ensures SmallSet(c, s[i].states)
  {
    assert GoodEntry(c, s, i) && GoodEntry(c, s, 0) && s[0].states != s[i].states;
    PreUniform(c, t, b, s[i].lastseen);
  }

  /** With three states, four entries cannot have been seen in the current attempt. */
  lemma ThreeStates(c: Cnfa, t: Text, s: seq<SSet>, b: nat, cur: int)
    requires WellFormed(c) && Uniform(c, t) && c.nstates == 3 && |s| >= 5 && Sized(s, c.ncolors) && Coherent(c, t, s, |s|, NONE)
    requires cur <= |t.col|
    ensures exists i :: 1 <= i < 5 && !(b <= s[i].lastseen <= cur && s[i].states == SetAt(c, t, b, s[i].lastseen))
  {
    if forall i :: 1 <= i < 5 ==> b <= s[i].lastseen <= cur && s[i].states == SetAt(c, t, b, s[i].lastseen) {
      SmallEntry(c, t, s, b, cur, 1);
      SmallEntry(c, t, s, b, cur, 2);
      SmallEntry(c, t, s, b, cur, 3);
      SmallEntry(c, t, s, b, cur, 4);
      TwoOfFourAlike(c, s[1].states, s[2].states, s[3].states, s[4].states);
    }
  }

  /** Replacement never fails. */
  lemma RoomLeft(c: Cnfa, t: Text, s: seq<SSet>, n: nat, b: nat, cur: int, cp: int)
    requires WellFormed(c) && BigEnough(c, t, n)
    requires 1 <= n == |s| && Sized(s, c.ncolors) && cur <= |t.col| && cur <= cp <= cur + 1 && b <= cp
    requires Coherent(c, t, s, n, NONE) && Stamped(c, t, s, n, b, cur, NONE)
    ensures exists i :: 0 <= i < n && Evictable(s[i], Ancient(cp, b, n))
  {
    if forall i :: 0 <= i < n ==> !Evictable(s[i], Ancient(cp, b, n)) {
      AllRecent(c, t, s, n, b, cur, cp);
      if n == 6 {
        ThreeStates(c, t, s, b, cur);
      } else if n < 7 {
        TwoStates(c, t, s);
      }
    }
  }
}

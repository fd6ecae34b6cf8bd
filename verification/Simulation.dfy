/** Plain subset simulation of a compacted NFA, and its agreement with paths. */
module Simulation {
  import opened Automaton
  import opened CompactNfa

  /** The string as colours, the flags for its two ends, and what the lookahead
      constraints say: constraint k holds at position p iff `holds(k, p)`. */
  datatype Text = Text(col: seq<int>, notbol: bool, noteol: bool, holds: (int, int) -> bool)

  /** Every character has a colour that is not a pseudocolour. */
  ghost predicate Colored(c: Cnfa, t: Text) {
    forall p :: 0 <= p < |t.col| ==>
      0 <= t.col[p] < c.ncolors && t.col[p] != c.eos.0 && t.col[p] != c.eos.1 && t.col[p] != c.bos.0 && t.col[p] != c.bos.1
  }

  function Bos(c: Cnfa, t: Text): int { if t.notbol then c.bos.0 else c.bos.1 }

  function Eos(c: Cnfa, t: Text): int { if t.noteol then c.eos.0 else c.eos.1 }

  /** The symbol before position `b`. */
  function Prev(c: Cnfa, t: Text, b: nat): int
    requires b <= |t.col|
  {
    if b == 0 then Bos(c, t) else t.col[b - 1]
  }

  /** The symbol after position `e`. */
  function Next(c: Cnfa, t: Text, e: nat): int
    requires e <= |t.col|
  {
    if e == |t.col| then Eos(c, t) else t.col[e]
  }

  /** What has been read when an attempt that starts at `b` has come to `p`. */
  function ReadWord(c: Cnfa, t: Text, b: nat, p: nat): seq<int>
    requires b <= p <= |t.col|
  {
    [Prev(c, t, b)] + t.col[b..p]
  }

  /** The extended word of the substring from `b` to `e`. */
  function MatchWord(c: Cnfa, t: Text, b: nat, e: nat): seq<int>
    requires b <= e <= |t.col|
  {
    ReadWord(c, t, b, e) + [Next(c, t, e)]
  }

  ghost function FrameAt(c: Cnfa, t: Text, b: int): Frame { FrameOf(c, t.holds, b - 1) }

  /** The compacted NFA accepts the substring from `b` to `e` in its context. */
  ghost predicate Matches(c: Cnfa, t: Text, b: nat, e: nat)
    requires b <= e <= |t.col|
  {
    Accepts(FrameAt(c, t, b), ArcsOf(c), MatchWord(c, t, b, e))
  }

  // ----- paths through Plain and Lacon arcs

  lemma {:induction false} PathAppend(x: Frame, A: set<Arc>, w: seq<int>, s: nat, i: int, u: nat, k: int, t: nat, j: int, m: nat, n: nat)
    requires 0 <= i <= |w| && 0 <= k <= |w|
    requires Path(x, A, w, s, i, u, k, m) && Path(x, A, w, u, k, t, j, n)
    ensures Path(x, A, w, s, i, t, j, m + n)
    decreases m
  {
    if m > 0 {
      var a := PathFirst(x, A, w, s, i, u, k, m);
      PathAppend(x, A, w, a.to, i + Width(x, a), u, k, t, j, m - 1, n);
      PathCons(x, A, w, a, i, t, j, m + n - 1);
    }
  }

  lemma {:induction false} PathBounds(x: Frame, A: set<Arc>, w: seq<int>, s: nat, i: int, t: nat, j: int, n: nat)
    requires 0 <= i <= |w| && Path(x, A, w, s, i, t, j, n)
    ensures i <= j <= |w|
    decreases n
  {
    if n > 0 {
      var a := PathFirst(x, A, w, s, i, t, j, n);
      PathBounds(x, A, w, a.to, i + Width(x, a), t, j, n - 1);
    }
  }

  ghost predicate PlainOrLacon(A: set<Arc>) { forall a :: a in A ==> a.kind == Plain || a.kind == Lacon }

  /** Symbols that are not read do not matter. */
  lemma {:induction false} PathPrefix(x: Frame, A: set<Arc>, w: seq<int>, v: seq<int>, s: nat, i: int, t: nat, j: int, n: nat)
    requires PlainOrLacon(A) && 0 <= i <= |w| && j <= |w|
    ensures Path(x, A, w, s, i, t, j, n) <==> Path(x, A, w + v, s, i, t, j, n)
    decreases n
  {
    if n > 0 {
      if Path(x, A, w, s, i, t, j, n) {
        var a := PathFirst(x, A, w, s, i, t, j, n);
        PathPrefix(x, A, w, v, a.to, i + Width(x, a), t, j, n - 1);
        PathCons(x, A, w + v, a, i, t, j, n - 1);
      }
      if Path(x, A, w + v, s, i, t, j, n) {
        var a := PathFirst(x, A, w + v, s, i, t, j, n);
        PathBounds(x, A, w + v, a.to, i + Width(x, a), t, j, n - 1);
        PathPrefix(x, A, w, v, a.to, i + Width(x, a), t, j, n - 1);
        PathCons(x, A, w, a, i, t, j, n - 1);
      }
    }
  }

  /** A path that consumes symbol `p` does so by a Plain arc. */
  lemma {:induction false} SymbolAt(x: Frame, A: set<Arc>, w: seq<int>, s: nat, i: int, t: nat, j: int, n: nat, p: int)
    returns (m: nat, a: Arc, l: nat)
    requires PlainOrLacon(A) && 0 <= i <= p < j <= |w| && Path(x, A, w, s, i, t, j, n)
    ensures Path(x, A, w, s, i, a.from, p, m) && a in A && a.kind == Plain && a.co == w[p]
    ensures Path(x, A, w, a.to, p + 1, t, j, l)
    decreases n
  {
    var b := PathFirst(x, A, w, s, i, t, j, n);
    if b.kind == Plain && i == p {
      m, a, l := 0, b, n - 1;
    } else {
      m, a, l := SymbolAt(x, A, w, b.to, i + Width(x, b), t, j, n - 1, p);
      PathCons(x, A, w, b, i, a.from, p, m);
      m := m + 1;
    }
  }

  /** `n` lookahead arcs that hold at `pos` lead from `u` to `q`. */
  ghost predicate LookPath(c: Cnfa, t: Text, pos: int, u: nat, q: nat, n: nat) {
    Path(FrameOf(c, t.holds, pos), ArcsOf(c), [], u, 0, q, 0, n)
  }

  /** A path that consumes nothing consists of lookahead arcs. */
  lemma {:induction false} IdlePath(c: Cnfa, t: Text, off: int, w: seq<int>, u: nat, j: int, q: nat, n: nat)
    requires 0 <= j <= |w|
    ensures Path(FrameOf(c, t.holds, off), ArcsOf(c), w, u, j, q, j, n) <==> LookPath(c, t, off + j, u, q, n)
    decreases n
  {
    var A, x, y := ArcsOf(c), FrameOf(c, t.holds, off), FrameOf(c, t.holds, off + j);
    if n > 0 {
      if Path(x, A, w, u, j, q, j, n) {
        var a := PathFirst(x, A, w, u, j, q, j, n);
        PathBounds(x, A, w, a.to, j + Width(x, a), q, j, n - 1);
        IdlePath(c, t, off, w, a.to, j, q, n - 1);
        PathCons(y, A, [], a, 0, q, 0, n - 1);
      }
      if LookPath(c, t, off + j, u, q, n) {
        var a := PathFirst(y, A, [], u, 0, q, 0, n);
        IdlePath(c, t, off, w, a.to, j, q, n - 1);
        PathCons(x, A, w, a, j, q, j, n - 1);
      }
    }
  }

  // ----- state sets

  /** Reading the symbols `w` from position `b - 1` on can lead from pre to `q`. */
  ghost predicate Reads(c: Cnfa, t: Text, b: int, w: seq<int>, q: nat) {
    exists n: nat :: Path(FrameAt(c, t, b), ArcsOf(c), w, c.pre, 0, q, |w|, n)
  }

  /** State `q` is reached at `p` by an attempt that started at `b`. */
  ghost predicate Live(c: Cnfa, t: Text, b: nat, p: nat, q: nat)
    requires b <= p <= |t.col|
  {
    Reads(c, t, b, ReadWord(c, t, b, p), q)
  }

  ghost function SetAt(c: Cnfa, t: Text, b: nat, p: nat): set<nat>
    requires b <= p <= |t.col|
  {
    set q: nat | q < c.nstates && Live(c, t, b, p, q)
  }

  ghost predicate Steps(c: Cnfa, t: Text, S: set<nat>, co: int, pos: int, q: nat) {
    exists a, n: nat :: a in ArcsOf(c) && a.from in S && a.kind == Plain && a.co == co && LookPath(c, t, pos, a.to, q, n)
  }

  /** One step of subset simulation: follow colour `co` out of `S`, then close under
      the lookahead constraints that hold at `pos`. */
  ghost function Delta(c: Cnfa, t: Text, S: set<nat>, co: int, pos: int): set<nat> {
    set q: nat | q < c.nstates && Steps(c, t, S, co, pos, q)
  }

  lemma ArcsKinds(c: Cnfa)
    ensures PlainOrLacon(ArcsOf(c))
  {
  }

  lemma ArcsBounded(c: Cnfa)
    requires WellFormed(c)
    ensures forall a :: a in ArcsOf(c) ==> a.from < c.nstates && a.to < c.nstates
  {
    forall a | a in ArcsOf(c) ensures a.from < c.nstates && a.to < c.nstates {
      var k := ArcAt(c, a);
    }
  }

  lemma {:induction false} PathInside(c: Cnfa, x: Frame, w: seq<int>, s: nat, i: int, t: nat, j: int, n: nat)
    requires WellFormed(c) && 0 <= i <= |w| && s < c.nstates && Path(x, ArcsOf(c), w, s, i, t, j, n)
    ensures t < c.nstates
    decreases n
  {
    if n > 0 {
      ArcsBounded(c);
      var a := PathFirst(x, ArcsOf(c), w, s, i, t, j, n);
      PathInside(c, x, w, a.to, i + Width(x, a), t, j, n - 1);
    }
  }

  /** No lookahead arc leaves pre. */
  lemma StuckAtPre(c: Cnfa, t: Text, pos: int, q: nat, n: nat)
    requires WellFormed(c) && LookPath(c, t, pos, c.pre, q, n)
    ensures q == c.pre
  {
    if n > 0 {
      var a := PathFirst(FrameOf(c, t.holds, pos), ArcsOf(c), [], c.pre, 0, q, 0, n);
    }
  }

  /** No lookahead arc enters post. */
  lemma {:induction false} PostOnlyDirectly(c: Cnfa, t: Text, pos: int, u: nat, n: nat)
    requires WellFormed(c) && LookPath(c, t, pos, u, c.post, n)
    ensures u == c.post && n == 0
    decreases n
  {
    if n > 0 {
      var a := PathFirst(FrameOf(c, t.holds, pos), ArcsOf(c), [], u, 0, c.post, 0, n);
      PostOnlyDirectly(c, t, pos, a.to, n - 1);
    }
  }

  lemma ReadOneStep(c: Cnfa, t: Text, b: int, w: seq<int>, co: int, q: nat, S: set<nat>)
    requires WellFormed(c)
    requires forall r: nat :: r < c.nstates && Reads(c, t, b, w, r) ==> r in S
    requires Reads(c, t, b, w + [co], q)
    ensures Steps(c, t, S, co, b + |w|, q)
  {
    var x, A, v := FrameAt(c, t, b), ArcsOf(c), w + [co];
    var n: nat :| Path(x, A, v, c.pre, 0, q, |v|, n);
    ArcsKinds(c);
    ArcsBounded(c);
    var m, a, l := SymbolAt(x, A, v, c.pre, 0, q, |v|, n, |w|);
    PathPrefix(x, A, w, [co], c.pre, 0, a.from, |w|, m);
    IdlePath(c, t, b - 1, v, a.to, |v|, q, l);
    assert Reads(c, t, b, w, a.from);
  }

  lemma StepReadOne(c: Cnfa, t: Text, b: int, w: seq<int>, co: int, q: nat, S: set<nat>)
    requires forall r: nat :: r in S ==> Reads(c, t, b, w, r)
    requires Steps(c, t, S, co, b + |w|, q)
    ensures Reads(c, t, b, w + [co], q)
  {
    var x, A, v := FrameAt(c, t, b), ArcsOf(c), w + [co];
    var a, l: nat :| a in A && a.from in S && a.kind == Plain && a.co == co && LookPath(c, t, b + |w|, a.to, q, l);
    var m: nat :| Path(x, A, w, c.pre, 0, a.from, |w|, m);
    ArcsKinds(c);
    PathPrefix(x, A, w, [co], c.pre, 0, a.from, |w|, m);
    IdlePath(c, t, b - 1, v, a.to, |v|, q, l);
    PathCons(x, A, v, a, |w|, q, |v|, l);
    PathAppend(x, A, v, c.pre, 0, a.from, |w|, q, |v|, m, l + 1);
  }

  /** The start: having read nothing, an attempt is in pre only. */
  lemma ReadNothing(c: Cnfa, t: Text, b: int, q: nat)
    requires WellFormed(c)
    ensures Reads(c, t, b, [], q) <==> q == c.pre
  {
    var x, A := FrameAt(c, t, b), ArcsOf(c);
    assert Path(x, A, [], c.pre, 0, c.pre, 0, 0);
    if n: nat :| Path(x, A, [], c.pre, 0, q, 0, n) {
      StuckAtPre(c, t, b - 1, q, n);
    }
  }

  /** Startup: the first state set is one step out of pre, over the previous symbol. */
  lemma FirstSet(c: Cnfa, t: Text, b: nat)
    requires WellFormed(c) && b <= |t.col|
    ensures SetAt(c, t, b, b) == Delta(c, t, {c.pre}, Prev(c, t, b), b)
  {
    assert ReadWord(c, t, b, b) == [] + [Prev(c, t, b)];
    forall r | true ensures Reads(c, t, b, [], r) <==> r == c.pre { ReadNothing(c, t, b, r); }
    forall q: nat | q < c.nstates ensures Live(c, t, b, b, q) <==> Steps(c, t, {c.pre}, Prev(c, t, b), b, q) {
      if Live(c, t, b, b, q) {
        ReadOneStep(c, t, b, [], Prev(c, t, b), q, {c.pre});
      }
      if Steps(c, t, {c.pre}, Prev(c, t, b), b, q) {
        StepReadOne(c, t, b, [], Prev(c, t, b), q, {c.pre});
      }
    }
  }

  /** Each later state set is one step from the one before, over the next character. */
  lemma NextSet(c: Cnfa, t: Text, b: nat, p: nat)
    requires WellFormed(c) && b <= p < |t.col|
    ensures SetAt(c, t, b, p + 1) == Delta(c, t, SetAt(c, t, b, p), t.col[p], p + 1)
  {
    var w := ReadWord(c, t, b, p);
    assert ReadWord(c, t, b, p + 1) == w + [t.col[p]];
    var S, co, p' := SetAt(c, t, b, p), t.col[p], p + 1;
    forall q: nat | q < c.nstates ensures Live(c, t, b, p', q) <==> Steps(c, t, S, co, p', q) {
      if Live(c, t, b, p', q) {
        ReadOneStep(c, t, b, w, co, q, S);
      }
      if Steps(c, t, S, co, p', q) {
        StepReadOne(c, t, b, w, co, q, S);
      }
    }
  }

  /** A match ends before position `p` exactly if the state set at `p + 1` has post. */
  lemma MatchInside(c: Cnfa, t: Text, b: nat, e: nat)
    requires WellFormed(c) && b <= e < |t.col|
    ensures Matches(c, t, b, e) <==> c.post in SetAt(c, t, b, e + 1)
  {
    var w := MatchWord(c, t, b, e);
    assert ReadWord(c, t, b, e + 1) == w;
    if Matches(c, t, b, e) {
      var n: nat :| Ends(FrameAt(c, t, b), ArcsOf(c), w, c.pre, 0, n);
    }
    if c.post in SetAt(c, t, b, e + 1) {
      var n: nat :| Path(FrameAt(c, t, b), ArcsOf(c), w, c.pre, 0, c.post, |w|, n);
      assert Ends(FrameAt(c, t, b), ArcsOf(c), w, c.pre, 0, n);
    }
  }

  /** Where the lookahead constraints are looked up does not matter for reaching post. */
  lemma PostAnywhere(c: Cnfa, t: Text, S: set<nat>, co: int, pos: int, pos': int)
    requires WellFormed(c) && Steps(c, t, S, co, pos, c.post)
    ensures Steps(c, t, S, co, pos', c.post)
  {
    var a, n: nat :| a in ArcsOf(c) && a.from in S && a.kind == Plain && a.co == co && LookPath(c, t, pos, a.to, c.post, n);
    PostOnlyDirectly(c, t, pos, a.to, n);
    assert LookPath(c, t, pos', a.to, c.post, 0);
  }

  /** A match ends at the end of the string exactly if one more step, over the
      end-of-string symbol, gets to post. */
  lemma MatchAtStop(c: Cnfa, t: Text, b: nat)
    requires WellFormed(c) && b <= |t.col|
    ensures Matches(c, t, b, |t.col|) <==> c.post in Delta(c, t, SetAt(c, t, b, |t.col|), Eos(c, t), |t.col|)
  {
    var w, S, co := ReadWord(c, t, b, |t.col|), SetAt(c, t, b, |t.col|), Eos(c, t);
    assert MatchWord(c, t, b, |t.col|) == w + [co];
    if Matches(c, t, b, |t.col|) {
      var n: nat :| Ends(FrameAt(c, t, b), ArcsOf(c), w + [co], c.pre, 0, n);
      assert Reads(c, t, b, w + [co], c.post);
      ReadOneStep(c, t, b, w, co, c.post, S);
      PostAnywhere(c, t, S, co, |t.col| + 1, |t.col|);
    }
    if Steps(c, t, S, co, |t.col|, c.post) {
      PostAnywhere(c, t, S, co, |t.col|, |t.col| + 1);
      StepReadOne(c, t, b, w, co, c.post, S);
      var n: nat :| Path(FrameAt(c, t, b), ArcsOf(c), w + [co], c.pre, 0, c.post, |w + [co]|, n);
      assert Ends(FrameAt(c, t, b), ArcsOf(c), w + [co], c.pre, 0, n);
    }
  }

  /** The first state set never has post: nothing leads straight from pre to post. */
  lemma FirstSetLacksPost(c: Cnfa, t: Text, b: nat)
    requires WellFormed(c) && b <= |t.col|
    ensures c.post !in SetAt(c, t, b, b)
  {
    FirstSet(c, t, b);
    if Steps(c, t, {c.pre}, Prev(c, t, b), b, c.post) {
      var a, n: nat :| a in ArcsOf(c) && a.from in {c.pre} && a.kind == Plain && LookPath(c, t, b, a.to, c.post, n);
      PostOnlyDirectly(c, t, b, a.to, n);
    }
  }

  /** Once the state set is empty it stays empty, and nothing matches any more. */
  lemma {:induction false} EmptyForGood(c: Cnfa, t: Text, b: nat, p: nat, p': nat)
    requires WellFormed(c) && b <= p <= p' <= |t.col| && SetAt(c, t, b, p) == {}
    ensures SetAt(c, t, b, p') == {}
    decreases p'
  {
    if p < p' {
      EmptyForGood(c, t, b, p, p' - 1);
      NextSet(c, t, b, p' - 1);
    }
  }

  /** No match ends where the state set is empty, or later. */
  lemma NothingMatches(c: Cnfa, t: Text, b: nat, p: nat)
    requires WellFormed(c) && b <= p <= |t.col| && SetAt(c, t, b, p) == {}
    ensures forall e :: b <= e && p - 1 <= e <= |t.col| ==> !Matches(c, t, b, e)
  {
    forall e | b <= e && p - 1 <= e <= |t.col| ensures !Matches(c, t, b, e) {
      if e < |t.col| {
        EmptyForGood(c, t, b, p, e + 1);
        MatchInside(c, t, b, e);
      } else {
        EmptyForGood(c, t, b, p, e);
        MatchAtStop(c, t, b);
      }
    }
  }
}

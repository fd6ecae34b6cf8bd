/** `simpleFind`, first half: locating the leftmost match with the search automaton. */
module Search {
  import opened Automaton
  import opened CompactNfa
  import opened Simulation
  import opened CacheLinks
  import opened CacheState
  import opened CacheRoom
  import opened SearchNfa
  import opened LazyDfa

  /** Pre of `s` loops on everything that can come before a match in `t`. */
  ghost predicate Looped(s: Cnfa, t: Text) {
    && (forall p :: 0 <= p < |t.col| ==> Arc(Plain, t.col[p], s.pre, s.pre) in ArcsOf(s))
    && Arc(Plain, Bos(s, t), s.pre, s.pre) in ArcsOf(s)
  }

  /** `s` is a search automaton for `c`, as far as `t` is concerned. */
  ghost predicate Finds(s: Cnfa, c: Cnfa, t: Text) {
    && WellFormed(s) && WellFormed(c) && Colored(s, t)
    && s.ncolors == c.ncolors && s.bos == c.bos && s.eos == c.eos
    && (forall off: int, w :: Accepts(FrameOf(c, t.holds, off), ArcsOf(c), w) <==> Proper(FrameOf(s, t.holds, off), ArcsOf(s), w))
    && OneWay(FrameOf(s, t.holds, 0), ArcsOf(s))
    && (Looped(s, t) || (Anchored(FrameOf(s, t.holds, 0), ArcsOf(s)) && forall a :: a in ArcsOf(s) ==> a.to != s.pre))
  }

  /** A path reads the same symbols wherever the word is said to start. */
  lemma {:induction false} PathShift(c: Cnfa, holds: (int, int) -> bool, off: int, w: seq<int>, k: int, s: nat, i: int, t: nat, j: int, n: nat)
    requires 0 <= k && 0 <= i && i + k <= |w|
    ensures Path(FrameOf(c, holds, off + k), ArcsOf(c), w[k..], s, i, t, j, n) <==>
            Path(FrameOf(c, holds, off), ArcsOf(c), w, s, i + k, t, j + k, n)
    decreases n
  {
    var A, x, y := ArcsOf(c), FrameOf(c, holds, off), FrameOf(c, holds, off + k);
    if n > 0 {
      if Path(y, A, w[k..], s, i, t, j, n) {
        var a := PathFirst(y, A, w[k..], s, i, t, j, n);
        PathShift(c, holds, off, w, k, a.to, i + Width(y, a), t, j, n - 1);
        PathCons(x, A, w, a, i + k, t, j + k, n - 1);
      }
      if Path(x, A, w, s, i + k, t, j + k, n) {
        var a := PathFirst(x, A, w, s, i + k, t, j + k, n);
        PathShift(c, holds, off, w, k, a.to, i + Width(x, a), t, j, n - 1);
        PathCons(y, A, w[k..], a, i, t, j, n - 1);
      }
    }
  }

  /** The loops take pre over any beginning of the string. */
  lemma {:induction false} LoopPath(s: Cnfa, t: Text, w: seq<int>, i: nat, b: nat)
    requires i <= b <= |t.col| + 1 && b <= |w| && Looped(s, t)
    requires forall k :: 0 <= k < b ==> w[k] == if k == 0 then Bos(s, t) else t.col[k - 1]
    ensures Path(FrameAt(s, t, 0), ArcsOf(s), w, s.pre, i, s.pre, b, b - i)
    decreases b - i
  {
    if i < b {
      LoopPath(s, t, w, i + 1, b);
      PathCons(FrameAt(s, t, 0), ArcsOf(s), w, Arc(Plain, w[i], s.pre, s.pre), i, s.pre, b, b - i - 1);
    }
  }

  /** A way to post leaves pre at some point. */
  lemma {:induction false} LeavePre(s: Cnfa, x: Frame, w: seq<int>, i: nat, n: nat) returns (k: nat, a: Arc, m: nat)
    requires WellFormed(s) && x.pre == s.pre && x.post == s.post && i <= |w| && Ends(x, ArcsOf(s), w, s.pre, i, n)
    ensures i <= k < |w| && a in ArcsOf(s) && a.from == s.pre && a.to != s.pre && a.kind == Plain && a.co == w[k]
    ensures Ends(x, ArcsOf(s), w, a.to, k + 1, m)
    decreases n
  {
    a := PathFirst(x, ArcsOf(s), w, s.pre, i, x.post, |w|, n);
    if a.to == s.pre {
      k, a, m := LeavePre(s, x, w, i + 1, n - 1);
    } else {
      k, m := i, n - 1;
    }
  }

  /** Pre is never entered from elsewhere. */
  lemma {:induction false} NeverBack(x: Frame, A: set<Arc>, w: seq<int>, u: nat, i: int, q: nat, j: int, n: nat)
    requires OnlyFromPre(x, A, x.pre) && 0 <= i <= |w| && u != x.pre && Path(x, A, w, u, i, q, j, n)
    ensures q != x.pre
    decreases n
  {
    if n > 0 {
      var a := PathFirst(x, A, w, u, i, q, j, n);
      NeverBack(x, A, w, a.to, i + Width(x, a), q, j, n - 1);
    }
  }

  lemma SuffixWord(c: Cnfa, t: Text, b: nat, e: nat)
    requires b <= e <= |t.col|
    ensures MatchWord(c, t, b, e) == MatchWord(c, t, 0, e)[b..]
    ensures forall k :: 0 <= k <= e ==> MatchWord(c, t, 0, e)[k] == if k == 0 then Bos(c, t) else t.col[k - 1]
  {
  }

  /** Going on to post, seen from the start of the match and from that of the string. */
  lemma FromMiddle(s: Cnfa, t: Text, b: nat, e: nat, u: nat, n: nat)
    requires b <= e <= |t.col|
    ensures Ends(FrameAt(s, t, b), ArcsOf(s), MatchWord(s, t, b, e), u, 1, n) <==>
            Ends(FrameAt(s, t, 0), ArcsOf(s), MatchWord(s, t, 0, e), u, b + 1, n)
  {
    SuffixWord(s, t, b, e);
    PathShift(s, t.holds, -1, MatchWord(s, t, 0, e), b, u, 1, s.post, e - b + 2, n);
  }

  /** How a match leaves pre in the search automaton, and goes on to post. */
  lemma Departure(s: Cnfa, c: Cnfa, t: Text, b: nat, e: nat) returns (a: Arc, n: nat)
    requires Finds(s, c, t) && b <= e <= |t.col| && Matches(c, t, b, e)
    ensures a in ArcsOf(s) && a.from == s.pre && a.to != s.pre && a.kind == Plain && a.co == MatchWord(s, t, 0, e)[b]
    ensures Ends(FrameAt(s, t, 0), ArcsOf(s), MatchWord(s, t, 0, e), a.to, b + 1, n)
    ensures b == 0 || Looped(s, t)
  {
    var v, y := MatchWord(s, t, b, e), FrameAt(s, t, b);
    assert v == MatchWord(c, t, b, e);
    a, n :| a in ArcsOf(s) && Leaves(y, ArcsOf(s), v, a, n);
    FromMiddle(s, t, b, e, a.to, n);
  }

  /** Staying in pre up to `b`, then leaving. */
  lemma LoopsThenLeave(s: Cnfa, t: Text, b: nat, e: nat, a: Arc)
    requires b <= e <= |t.col| && (b == 0 || Looped(s, t))
    requires a in ArcsOf(s) && a.from == s.pre && a.kind == Plain && a.co == MatchWord(s, t, 0, e)[b]
    ensures Path(FrameAt(s, t, 0), ArcsOf(s), MatchWord(s, t, 0, e), s.pre, 0, a.to, b + 1, b + 1)
  {
    var A, w, x := ArcsOf(s), MatchWord(s, t, 0, e), FrameAt(s, t, 0);
    if b > 0 {
      SuffixWord(s, t, b, e);
      LoopPath(s, t, w, 0, b);
    }
    PathCons(x, A, w, a, b, a.to, b + 1, 0);
    PathAppend(x, A, w, s.pre, 0, s.pre, b, a.to, b + 1, b, 1);
  }

  /** A match in the middle of the string, as a run of the search automaton from the
      beginning: it stays in pre up to the match and leaves by arc `a`. */
  lemma Thread(s: Cnfa, c: Cnfa, t: Text, b: nat, e: nat) returns (a: Arc, n: nat)
    requires Finds(s, c, t) && b <= e <= |t.col| && Matches(c, t, b, e)
    ensures a in ArcsOf(s) && a.from == s.pre && a.to != s.pre && a.kind == Plain
    ensures Path(FrameAt(s, t, 0), ArcsOf(s), MatchWord(s, t, 0, e), s.pre, 0, a.to, b + 1, b + 1)
    ensures Ends(FrameAt(s, t, 0), ArcsOf(s), MatchWord(s, t, 0, e), a.to, b + 1, n)
  {
    a, n := Departure(s, c, t, b, e);
    LoopsThenLeave(s, t, b, e, a);
  }

  /** What the search automaton accepts ends in a match. */
  lemma SearchSound(s: Cnfa, c: Cnfa, t: Text, e: nat) returns (b: nat)
    requires Finds(s, c, t) && e <= |t.col| && Matches(s, t, 0, e)
    ensures b <= e && Matches(c, t, b, e)
  {
    var A, w, x := ArcsOf(s), MatchWord(s, t, 0, e), FrameAt(s, t, 0);
    var n: nat :| Ends(x, A, w, s.pre, 0, n);
    var k, a, m := LeavePre(s, x, w, 0, n);
    assert k <= e by {
      if k == e + 1 {
        IdlePath(s, t, -1, w, a.to, |w|, s.post, m);
        PostOnlyDirectly(s, t, |w| - 1, a.to, m);
      }
    }
    b := k;
    var v := MatchWord(s, t, b, e);
    FromMiddle(s, t, b, e, a.to, m);
    assert Leaves(FrameAt(s, t, b), A, v, a, m);
    assert v == MatchWord(c, t, b, e);
  }

  /** The search automaton accepts up to `e` exactly if some match ends at `e`. */
  lemma SearchExact(s: Cnfa, c: Cnfa, t: Text, e: nat)
    requires Finds(s, c, t) && e <= |t.col|
    ensures Matches(s, t, 0, e) <==> exists b :: 0 <= b <= e && Matches(c, t, b, e)
  {
    if b :| 0 <= b <= e && Matches(c, t, b, e) {
      var w := MatchWord(s, t, 0, e);
      var a, n := Thread(s, c, t, b, e);
      PathAppend(FrameAt(s, t, 0), ArcsOf(s), w, s.pre, 0, a.to, b + 1, s.post, |w|, b + 1, n);
      assert Ends(FrameAt(s, t, 0), ArcsOf(s), w, s.pre, 0, b + 1 + n);
    }
    if Matches(s, t, 0, e) {
      var b := SearchSound(s, c, t, e);
    }
  }

  /** Where the search automaton goes once it has left pre, the state made progress. */
  lemma Progress(s: Cnfa, x: Frame, w: seq<int>, u: nat, i: int, p: int, m: nat, d: Arc)
    requires WellFormed(s) && x.pre == s.pre && OneWay(x, ArcsOf(s)) && 0 <= i <= |w| && u != s.pre
    requires d in ArcsOf(s) && Path(x, ArcsOf(s), w, u, i, d.from, p, m)
    ensures d.to < s.nstates && !s.noprogress[d.to]
  {
    ArcsBounded(s);
    NeverBack(x, ArcsOf(s), w, u, i, d.from, p, m);
    assert NextToPre(x, ArcsOf(s), d.to) ==> OnlyFromPre(x, ArcsOf(s), d.to);
  }

  /** A path over the beginning of the string makes its last state live. */
  lemma LiveEnd(s: Cnfa, t: Text, e: nat, p: nat, q: nat, n: nat)
    requires p <= e <= |t.col| && Path(FrameAt(s, t, 0), ArcsOf(s), MatchWord(s, t, 0, e), s.pre, 0, q, p + 1, n)
    ensures Live(s, t, 0, p, q)
  {
    var w, r := MatchWord(s, t, 0, e), ReadWord(s, t, 0, p);
    assert w == r + w[p + 1..];
    PathPrefix(FrameAt(s, t, 0), ArcsOf(s), r, w[p + 1..], s.pre, 0, q, p + 1, n);
  }

  /** On a run that leaves pre at `b`, the arc over symbol `p` leads to a state with
      progress, which is live at `p`. */
  lemma Midway(s: Cnfa, t: Text, b: nat, e: nat, p: nat, u: nat, n: nat) returns (q: nat)
    requires WellFormed(s) && OneWay(FrameAt(s, t, 0), ArcsOf(s)) && b < p <= e <= |t.col| && u != s.pre
    requires Path(FrameAt(s, t, 0), ArcsOf(s), MatchWord(s, t, 0, e), s.pre, 0, u, b + 1, b + 1)
    requires Ends(FrameAt(s, t, 0), ArcsOf(s), MatchWord(s, t, 0, e), u, b + 1, n)
    ensures q < s.nstates && !s.noprogress[q] && Live(s, t, 0, p, q)
  {
    var A, w, x := ArcsOf(s), MatchWord(s, t, 0, e), FrameAt(s, t, 0);
    var m, d, l := SymbolAt(x, A, w, u, b + 1, s.post, |w|, n, p);
    Progress(s, x, w, u, b + 1, p, m, d);
    PathAppend(x, A, w, s.pre, 0, u, b + 1, d.from, p, b + 1, m);
    PathCons(x, A, w, d, p, d.to, p + 1, 0);
    PathAppend(x, A, w, s.pre, 0, d.from, p, d.to, p + 1, b + 1 + m, 1);
    q := d.to;
    LiveEnd(s, t, e, p, q, b + 1 + m + 1);
  }

  /** Where the search automaton has made no progress, no match is under way. */
  lemma ColdMeansCold(s: Cnfa, c: Cnfa, t: Text, b: nat, e: nat, p: nat)
    requires Finds(s, c, t) && b < p <= e <= |t.col| && Matches(c, t, b, e)
    ensures !Idle(s, SetAt(s, t, 0, p))
  {
    var a, n := Thread(s, c, t, b, e);
    OneWayAnywhere(s, t);
    var q := Midway(s, t, b, e, p, a.to, n);
    assert q in SetAt(s, t, 0, p);
  }

  lemma OneWayAnywhere(s: Cnfa, t: Text)
    requires OneWay(FrameOf(s, t.holds, 0), ArcsOf(s))
    ensures OneWay(FrameAt(s, t, 0), ArcsOf(s))
  {
    var x, y := FrameOf(s, t.holds, 0), FrameAt(s, t, 0);
    assert OnlyFromPre(x, ArcsOf(s), x.pre);
    forall q | NextToPre(y, ArcsOf(s), q) ensures OnlyFromPre(y, ArcsOf(s), q) {
      assert NextToPre(x, ArcsOf(s), q) && OnlyFromPre(x, ArcsOf(s), q);
    }
  }

  /** `b` is where the leftmost match starts. */
  ghost predicate Leftmost(c: Cnfa, t: Text, b: nat) {
    b <= |t.col| && (exists e :: b <= e <= |t.col| && Matches(c, t, b, e)) && NoneBefore(c, t, b)
  }

  /** The two ends of the range of possible starts. */
  lemma StartRange(s: Cnfa, c: Cnfa, t: Text, open: nat, close: nat)
    requires Finds(s, c, t) && close <= |t.col|
    requires Matches(s, t, 0, close) && forall e :: 0 <= e < close ==> !Matches(s, t, 0, e)
    requires open == 0 || IdleAt(s, t, 0, close, open)
    ensures open <= close && SomeFrom(c, t, open, close) && NoneBefore(c, t, open)
  {
    forall a, e | 0 <= a < open && a <= e <= |t.col| ensures !Matches(c, t, a, e) {
      if Matches(c, t, a, e) {
        SearchExact(s, c, t, e);
        ColdMeansCold(s, c, t, a, e, open);
      }
    }
    SearchExact(s, c, t, close);
  }

  lemma NoMatchAnywhere(s: Cnfa, c: Cnfa, t: Text)
    requires Finds(s, c, t) && forall e :: 0 <= e <= |t.col| ==> !Matches(s, t, 0, e)
    ensures forall b, e :: 0 <= b <= e <= |t.col| ==> !Matches(c, t, b, e)
  {
    forall b, e | 0 <= b <= e <= |t.col| ensures !Matches(c, t, b, e) {
      SearchExact(s, c, t, e);
    }
  }

  /** The cache of a search automaton, or of any other, never runs out of room. */
  lemma RoomForSearch(s: Cnfa, c: Cnfa, t: Text)
    requires Finds(s, c, t)
    ensures Uniform(s, t)
  {
  }

  /** `e` is the end that a match starting at `b` should have. */
  ghost predicate BestEnd(c: Cnfa, t: Text, shorter: bool, b: nat, e: nat) {
    && b <= e <= |t.col| && Matches(c, t, b, e)
    && (forall f :: b <= f <= |t.col| && Matches(c, t, b, f) ==> if shorter then e <= f else f <= e)
  }

  /** Look for the range of starts, with the search automaton. */
  method FindRange(s: Cnfa, ghost c: Cnfa, t: Text) returns (open: int, close: int)
    requires Finds(s, c, t)
    ensures close == NONE ==> forall b, e :: 0 <= b <= e <= |t.col| ==> !Matches(c, t, b, e)
    ensures close != NONE ==> 0 <= open <= close <= |t.col| && SomeFrom(c, t, open, close) && NoneBefore(c, t, open)
  {
    RoomForSearch(s, c, t);
    var d := new Dfa(s, t, 2 * s.nstates);
    var hitstop;
    close, open, hitstop := d.Shortest(0, 0, |t.col|);
    if close == NONE {
      NoMatchAnywhere(s, c, t);
    } else {
      StartRange(s, c, t, open, close);
    }
  }

  /** `end` is the end of the best match that starts at `begin`, if there is one. */
  ghost predicate Tried(c: Cnfa, t: Text, shorter: bool, begin: nat, end: int) {
    if end == NONE then forall e :: begin <= e <= |t.col| ==> !Matches(c, t, begin, e)
    else end >= 0 && BestEnd(c, t, shorter, begin, end)
  }

  /** If nothing starts at `b`, all matches start later. */
  lemma TryNext(c: Cnfa, t: Text, shorter: bool, b: nat, close: nat)
    requires b <= close <= |t.col| && SomeFrom(c, t, b, close) && NoneBefore(c, t, b) && Tried(c, t, shorter, b, NONE)
    ensures b < close && SomeFrom(c, t, b + 1, close) && NoneBefore(c, t, b + 1)
  {
    assert !Matches(c, t, b, close);
  }

  /** The end of the best match that starts at `begin`, if there is one. */
  method TryStart(d: Dfa, shorter: bool, begin: nat) returns (end: int)
    requires d.Valid() && begin <= |d.t.col|
    modifies d`search, d`nssused, d`chains, d`lastpost, d`lastnopr, d.ssets
    ensures d.Valid()
    ensures Tried(d.c, d.t, shorter, begin, end)
  {
    var cold, hitend;
    if shorter {
      end, cold, hitend := d.Shortest(begin, begin, |d.t.col|);
    } else {
      end, hitend := d.Longest(begin, |d.t.col|);
    }
  }

  /** No match starts before `b`. */
  ghost predicate NoneBefore(c: Cnfa, t: Text, b: nat) {
    forall a, e :: 0 <= a < b && a <= e <= |t.col| ==> !Matches(c, t, a, e)
  }

  /** Some match to `close` starts at `b` or later. */
  ghost predicate SomeFrom(c: Cnfa, t: Text, b: nat, close: nat)
    requires close <= |t.col|
  {
    exists a :: b <= a <= close && Matches(c, t, a, close)
  }

  /** Try starts from `open` on; the search made sure that one of them works. */
  method TryStarts(c: Cnfa, t: Text, shorter: bool, open: nat, close: nat) returns (begin: nat, end: nat)
    requires WellFormed(c) && Colored(c, t) && Uniform(c, t) && open <= close <= |t.col|
    requires SomeFrom(c, t, open, close) && NoneBefore(c, t, open)
    ensures Leftmost(c, t, begin) && BestEnd(c, t, shorter, begin, end) && open <= begin <= close
  {
    var d := new Dfa(c, t, 2 * c.nstates);
    begin := open;
    var e := TryStart(d, shorter, begin);
    while e == NONE
      invariant d.Valid() && d.c == c && d.t == t && fresh(d) && fresh(d.ssets)
      invariant open <= begin <= close && SomeFrom(c, t, begin, close) && NoneBefore(c, t, begin)
      invariant Tried(c, t, shorter, begin, e)
      decreases close - begin, e == NONE
    {
      TryNext(c, t, shorter, begin, close);
      begin := begin + 1;
      e := TryStart(d, shorter, begin);
    }
    end := e;
  }
}

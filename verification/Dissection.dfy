/** `dissect`: recovering submatches from a match, by the tree of subexpressions. */
module Dissection {
  import opened CompactNfa
  import opened Simulation
  import opened CacheLinks
  import opened CacheState
  import opened CacheRoom
  import opened LazyDfa

  /** A node of the tree: '=' terminal, '.' concatenation, '(' capture, 'b' back
      reference, '|' one alternative, with the others along `right`. */
  datatype Subre = Null | Subre(op: char, shorter: bool, subno: nat, left: Subre, right: Subre, cnfa: Cnfa)

  datatype Code = Okay | NoMatch | AssertFailed

  datatype Capture = Capture(subno: nat, so: nat, eo: nat)

  ghost predicate Accepted(t: Subre, txt: Text, b: int, e: int) {
    t.Subre? && 0 <= b <= e <= |txt.col| && Matches(t.cnfa, txt, b, e)
  }

  /** The node's automaton can be run on the text. */
  ghost predicate Runs(t: Subre, txt: Text) {
    t.Subre? && WellFormed(t.cnfa) && Colored(t.cnfa, txt) && Uniform(t.cnfa, txt)
  }

  /** `m` splits `b` to `e` between the two parts of a concatenation. */
  ghost predicate Feasible(t: Subre, txt: Text, b: int, m: int, e: int) {
    t.Subre? && Accepted(t.left, txt, b, m) && Accepted(t.right, txt, m, e)
  }

  /** `m` splits `b` to `e` as the left part prefers. */
  ghost predicate BestSplit(t: Subre, txt: Text, b: int, m: int, e: int) {
    && Feasible(t, txt, b, m, e) && t.left.Subre?
    && forall k :: Feasible(t, txt, b, k, e) ==> if t.left.shorter then m <= k else k <= m
  }

  ghost predicate SomeAlternative(t: Subre, txt: Text, b: int, e: int) {
    t.Subre? && (Accepted(t.left, txt, b, e) || SomeAlternative(t.right, txt, b, e))
  }

  /** The languages of the nodes compose, down the tree. */
  ghost predicate Composed(t: Subre, txt: Text)
    decreases t, 1
  {
    t.Subre? && match t.op
      case '=' => t.left.Null? && t.right.Null?
      case '.' => && Runs(t.left, txt) && Runs(t.right, txt) && Composed(t.left, txt) && Composed(t.right, txt)
                  && forall b, e :: Accepted(t, txt, b, e) <==> exists m :: Feasible(t, txt, b, m, e)
      case '(' => && t.subno > 0 && t.right.Null? && Composed(t.left, txt)
                  && forall b, e :: Accepted(t, txt, b, e) <==> Accepted(t.left, txt, b, e)
      case '|' => && Chained(t, txt)
                  && forall b, e :: Accepted(t, txt, b, e) <==> SomeAlternative(t, txt, b, e)
      case _ => false
  }

  ghost predicate Chained(t: Subre, txt: Text)
    decreases t, 0
  {
    t.Subre? ==> t.op == '|' && Runs(t.left, txt) && Composed(t.left, txt) && Chained(t.right, txt)
  }

  /** What is captured when `t` matches from `b` to `e`. */
  ghost function Captures(t: Subre, txt: Text, b: int, e: int): seq<Capture>
    requires Composed(t, txt) && Accepted(t, txt, b, e)
    decreases t, 1
  {
    if t.op == '.' then
      BestSplitExists(t, txt, b, e);
      var m :| BestSplit(t, txt, b, m, e);
      Captures(t.left, txt, b, m) + Captures(t.right, txt, m, e)
    else if t.op == '(' then [Capture(t.subno, b, e)] + Captures(t.left, txt, b, e)
    else if t.op == '|' then ChainCaptures(t, txt, b, e)
    else []
  }

  /** What the first alternative that matches captures. */
  ghost function ChainCaptures(t: Subre, txt: Text, b: int, e: int): seq<Capture>
    requires Chained(t, txt) && SomeAlternative(t, txt, b, e)
    decreases t, 0
  {
    if Accepted(t.left, txt, b, e) then Captures(t.left, txt, b, e) else ChainCaptures(t.right, txt, b, e)
  }

  // ----- the preferred split

  /** Among the splits at `b` or later there is a least one. */
  lemma {:induction false} LeastSplit(t: Subre, txt: Text, b: int, e: int, m: int, lo: int) returns (k: int)
    requires Feasible(t, txt, b, m, e) && lo <= m && forall j :: Feasible(t, txt, b, j, e) ==> lo <= j
    ensures Feasible(t, txt, b, k, e) && forall j :: Feasible(t, txt, b, j, e) ==> k <= j
    decreases m - lo
  {
    if Feasible(t, txt, b, lo, e) { k := lo; } else { k := LeastSplit(t, txt, b, e, m, lo + 1); }
  }

  lemma {:induction false} GreatestSplit(t: Subre, txt: Text, b: int, e: int, m: int, hi: int) returns (k: int)
    requires Feasible(t, txt, b, m, e) && m <= hi && forall j :: Feasible(t, txt, b, j, e) ==> j <= hi
    ensures Feasible(t, txt, b, k, e) && forall j :: Feasible(t, txt, b, j, e) ==> j <= k
    decreases hi - m
  {
    if Feasible(t, txt, b, hi, e) { k := hi; } else { k := GreatestSplit(t, txt, b, e, m, hi - 1); }
  }

  lemma BestSplitExists(t: Subre, txt: Text, b: int, e: int)
    requires t.Subre? && exists m :: Feasible(t, txt, b, m, e)
    ensures exists m :: BestSplit(t, txt, b, m, e)
  {
    var m :| Feasible(t, txt, b, m, e);
    if t.left.shorter {
      var k := LeastSplit(t, txt, b, e, m, b);
      assert BestSplit(t, txt, b, k, e);
    } else {
      var k := GreatestSplit(t, txt, b, e, m, e);
      assert BestSplit(t, txt, b, k, e);
    }
  }

  // ----- what captures look like

  /** `u` is `t` or below it. */
  ghost predicate Within(u: Subre, t: Subre) {
    u == t || (t.Subre? && (Within(u, t.left) || Within(u, t.right)))
  }

  /** A capture that a capturing node of `t` made, of a substring that the node accepts. */
  ghost predicate Made(t: Subre, txt: Text, c: Capture) {
    exists u :: Within(u, t) && u.Subre? && u.op == '(' && u.subno == c.subno && Accepted(u, txt, c.so, c.eo)
  }

  /** `c` lies inside `d`, or after it. */
  predicate InsideOrAfter(c: Capture, d: Capture) {
    d.so <= c.so && (c.eo <= d.eo || d.eo <= c.so)
  }

  /** Captures lie between `b` and `e`, and each lies inside or after the ones before. */
  ghost predicate Nested(caps: seq<Capture>, b: int, e: int) {
    && (forall i :: 0 <= i < |caps| ==> b <= caps[i].so <= caps[i].eo <= e)
    && (forall i, j :: 0 <= i < j < |caps| ==> InsideOrAfter(caps[j], caps[i]))
  }

  lemma NestedAppend(l: seq<Capture>, r: seq<Capture>, b: int, m: int, e: int)
    requires b <= m <= e && Nested(l, b, m) && Nested(r, m, e)
    ensures Nested(l + r, b, e)
  {
  }

  lemma NestedInside(subno: nat, l: seq<Capture>, b: nat, e: nat)
    requires b <= e && Nested(l, b, e)
    ensures Nested([Capture(subno, b, e)] + l, b, e)
  {
  }

  /** Captures are made by capturing nodes from what these accept, and they nest. */
  lemma {:induction false} CapturesSound(t: Subre, txt: Text, b: int, e: int)
    requires Composed(t, txt) && Accepted(t, txt, b, e)
    ensures Nested(Captures(t, txt, b, e), b, e)
    ensures forall c :: c in Captures(t, txt, b, e) ==> Made(t, txt, c)
    decreases t, 1
  {
    if t.op == '.' {
      BestSplitExists(t, txt, b, e);
      var m :| BestSplit(t, txt, b, m, e) && Captures(t, txt, b, e) == Captures(t.left, txt, b, m) + Captures(t.right, txt, m, e);
      var l, r := Captures(t.left, txt, b, m), Captures(t.right, txt, m, e);
      CapturesSound(t.left, txt, b, m);
      CapturesSound(t.right, txt, m, e);
      MadeBelow(t, txt, l, r);
      NestedAppend(l, r, b, m, e);
    } else if t.op == '(' {
      var l := Captures(t.left, txt, b, e);
      CapturesSound(t.left, txt, b, e);
      MadeBelow(t, txt, l, []);
      NestedInside(t.subno, l, b, e);
      assert Within(t, t) && Made(t, txt, Capture(t.subno, b, e));
    } else if t.op == '|' {
      ChainSound(t, txt, b, e);
    }
  }

  lemma {:induction false} ChainSound(t: Subre, txt: Text, b: int, e: int)
    requires Chained(t, txt) && SomeAlternative(t, txt, b, e)
    ensures Nested(ChainCaptures(t, txt, b, e), b, e)
    ensures forall c :: c in ChainCaptures(t, txt, b, e) ==> Made(t, txt, c)
    decreases t, 0
  {
    if Accepted(t.left, txt, b, e) {
      CapturesSound(t.left, txt, b, e);
      MadeBelow(t, txt, Captures(t.left, txt, b, e), []);
    } else {
      ChainSound(t.right, txt, b, e);
      MadeBelow(t, txt, [], ChainCaptures(t.right, txt, b, e));
    }
  }

  lemma MadeBelow(t: Subre, txt: Text, l: seq<Capture>, r: seq<Capture>)
    requires t.Subre?
    requires (forall c :: c in l ==> Made(t.left, txt, c)) && forall c :: c in r ==> Made(t.right, txt, c)
    ensures forall c :: c in l + r ==> Made(t, txt, c)
  {
    forall c | c in l + r ensures Made(t, txt, c) {
      if c in l {
        var u :| Within(u, t.left) && u.Subre? && u.op == '(' && u.subno == c.subno && Accepted(u, txt, c.so, c.eo);
        assert Within(u, t);
      } else {
        var u :| Within(u, t.right) && u.Subre? && u.op == '(' && u.subno == c.subno && Accepted(u, txt, c.so, c.eo);
        assert Within(u, t);
      }
    }
  }

  /** Groups are numbered from 1 on. */
  lemma {:induction false} CapturesNumbered(t: Subre, txt: Text, b: int, e: int)
    requires Composed(t, txt) && Accepted(t, txt, b, e)
    ensures forall c :: c in Captures(t, txt, b, e) ==> c.subno > 0
    decreases t, 1
  {
    if t.op == '.' {
      BestSplitExists(t, txt, b, e);
      var m :| BestSplit(t, txt, b, m, e) && Captures(t, txt, b, e) == Captures(t.left, txt, b, m) + Captures(t.right, txt, m, e);
      CapturesNumbered(t.left, txt, b, m);
      CapturesNumbered(t.right, txt, m, e);
    } else if t.op == '(' {
      CapturesNumbered(t.left, txt, b, e);
    } else if t.op == '|' {
      ChainNumbered(t, txt, b, e);
    }
  }

  lemma {:induction false} ChainNumbered(t: Subre, txt: Text, b: int, e: int)
    requires Chained(t, txt) && SomeAlternative(t, txt, b, e)
    ensures forall c :: c in ChainCaptures(t, txt, b, e) ==> c.subno > 0
    decreases t, 0
  {
    if Accepted(t.left, txt, b, e) {
      CapturesNumbered(t.left, txt, b, e);
    } else {
      ChainNumbered(t.right, txt, b, e);
    }
  }

  // ----- the match vector

  type Vector = seq<(int, int)>

  function Record(p: Vector, c: Capture): (q: Vector)
    ensures |q| == |p|
  {
    if c.subno < |p| then p[c.subno := (c.so, c.eo)] else p
  }

  function Recorded(p: Vector, caps: seq<Capture>): (q: Vector)
    ensures |q| == |p|
    decreases |caps|
  {
    if caps == [] then p else Record(Recorded(p, caps[..|caps| - 1]), caps[|caps| - 1])
  }

  lemma {:induction false} RecordedAppend(p: Vector, a: seq<Capture>, b: seq<Capture>)
    ensures Recorded(p, a + b) == Recorded(Recorded(p, a), b)
    decreases |b|
  {
    if b == [] {
      assert a + b == a;
    } else {
      assert (a + b)[..|a + b| - 1] == a + b[..|b| - 1];
      RecordedAppend(p, a, b[..|b| - 1]);
    }
  }

  /** Each entry of the vector is what the last capture of its number recorded, if any. */
  lemma {:induction false} RecordedEntry(p: Vector, caps: seq<Capture>, n: nat)
    requires n < |p|
    ensures || (Recorded(p, caps)[n] == p[n] && forall c :: c in caps ==> c.subno != n)
            || (exists c :: c in caps && c.subno == n && Recorded(p, caps)[n] == (c.so, c.eo))
    decreases |caps|
  {
    if caps != [] {
      var k := |caps| - 1;
      RecordedEntry(p, caps[..k], n);
      assert caps == caps[..k] + [caps[k]];
    }
  }

  /** Note what a capturing node matched, if there is room for it. */
  method Subset(pmatch: array<(int, int)>, n: nat, begin: nat, end: nat)
    modifies pmatch
    ensures pmatch[..] == Record(old(pmatch[..]), Capture(n, begin, end))
  {
    if n >= pmatch.Length {
      return;
    }
    pmatch[n] := (begin, end);
  }

  // ----- dissection

  /** Whether the automaton of `d` accepts from `mid` to `end`. */
  method Reaches(d: Dfa, mid: nat, end: nat) returns (ok: bool)
    requires d.Valid() && mid <= end <= |d.t.col|
    modifies d`search, d`nssused, d`chains, d`lastpost, d`lastnopr, d.ssets
    ensures d.Valid() && (ok <==> Matches(d.c, d.t, mid, end))
  {
    var e, hitstop := d.Longest(mid, end);
    ok := e == end;
  }

  /** The next midpoint to try, from `lo` to `hi`: the least or the greatest. */
  ghost predicate Tentative(c: Cnfa, txt: Text, shorter: bool, b: nat, lo: int, hi: int, mid: int) {
    if mid == NONE then forall m :: b <= m && lo <= m <= hi && m <= |txt.col| ==> !Matches(c, txt, b, m)
    else && b <= mid && lo <= mid <= hi && mid <= |txt.col| && Matches(c, txt, b, mid)
         && forall m :: b <= m && lo <= m <= hi && m <= |txt.col| && Matches(c, txt, b, m) ==> if shorter then mid <= m else m <= mid
  }

  method NextMidpoint(d: Dfa, shorter: bool, begin: nat, lo: nat, hi: nat) returns (mid: int)
    requires d.Valid() && begin <= lo <= hi <= |d.t.col| && (shorter || lo == begin)
    modifies d`search, d`nssused, d`chains, d`lastpost, d`lastnopr, d.ssets
    ensures d.Valid() && mid >= NONE && Tentative(d.c, d.t, shorter, begin, lo, hi, mid)
  {
    var cold, hitstop;
    if shorter {
      mid, cold, hitstop := d.Shortest(begin, lo, hi);
    } else {
      mid, hitstop := d.Longest(begin, hi);
    }
  }

  /** No split is left but those from `lo` to `hi`. */
  ghost predicate SplitsLeft(t: Subre, txt: Text, b: int, e: int, lo: int, hi: int) {
    forall m :: Feasible(t, txt, b, m, e) ==> lo <= m <= hi
  }

  /** The two parts' automata, ready to run. */
  ghost predicate Paired(t: Subre, txt: Text, d: Dfa, d2: Dfa)
    reads d, d.ssets, d2, d2.ssets
  {
    && t.Subre? && t.left.Subre? && t.right.Subre? && d != d2 && d.ssets != d2.ssets
    && d.Valid() && d.c == t.left.cnfa && d.t == txt && d2.Valid() && d2.c == t.right.cnfa && d2.t == txt
  }

  /** The range of midpoints still to be tried, and the one to try first. */
  ghost predicate Trying(t: Subre, txt: Text, begin: nat, end: nat, lo: int, hi: int, mid: int) {
    && t.Subre? && t.left.Subre? && begin <= lo <= hi <= end <= |txt.col| && mid >= NONE
    && (if t.left.shorter then hi == end else lo == begin)
    && Tentative(t.left.cnfa, txt, t.left.shorter, begin, lo, hi, mid) && SplitsLeft(t, txt, begin, end, lo, hi)
  }

  /** If `mid` fails, the splits left are beyond it. */
  lemma SplitsBeyond(t: Subre, txt: Text, begin: nat, end: nat, lo: int, hi: int, mid: int)
    requires Trying(t, txt, begin, end, lo, hi, mid) && mid != NONE && !Accepted(t.right, txt, mid, end)
    ensures t.left.shorter ==> SplitsLeft(t, txt, begin, end, mid + 1, hi)
    ensures !t.left.shorter ==> SplitsLeft(t, txt, begin, end, lo, mid - 1)
  {
  }

  /** Try one midpoint; if it fails pick the next one. */
  method TryMidpoint(t: Subre, txt: Text, d: Dfa, d2: Dfa, begin: nat, end: nat, lo0: nat, hi0: nat, mid0: nat)
    returns (done: bool, lo: nat, hi: nat, mid: int)
    requires Paired(t, txt, d, d2) && Trying(t, txt, begin, end, lo0, hi0, mid0)
    modifies d`search, d`nssused, d`chains, d`lastpost, d`lastnopr, d.ssets
    modifies d2`search, d2`nssused, d2`chains, d2`lastpost, d2`lastnopr, d2.ssets
    ensures Paired(t, txt, d, d2)
    ensures done && mid != NONE ==> BestSplit(t, txt, begin, mid, end)
    ensures done && mid == NONE ==> forall m :: !Feasible(t, txt, begin, m, end)
    ensures !done ==> Trying(t, txt, begin, end, lo, hi, mid) && hi - lo < hi0 - lo0 && mid != NONE
  {
    var stop := if t.left.shorter then end else begin;
    lo, hi, mid := lo0, hi0, mid0;
    var ok := Reaches(d2, mid, end);
    if ok {
      return true, lo, hi, mid;
    }
    SplitsBeyond(t, txt, begin, end, lo, hi, mid);
    if mid == stop {
      return true, lo, hi, NONE;
    }
    if t.left.shorter {
      lo := mid0 + 1;
    } else {
      hi := mid0 - 1;
    }
    mid := NextMidpoint(d, t.left.shorter, begin, lo, hi);
    done := mid == NONE;
  }

  /** Iterate over the midpoints that the left part accepts, in its order of preference,
      until the right part accepts the rest. */
  method Midpoint(t: Subre, txt: Text, begin: nat, end: nat) returns (mid: int)
    requires t.Subre? && Runs(t.left, txt) && Runs(t.right, txt) && begin <= end <= |txt.col|
    ensures mid == NONE ==> forall m :: !Feasible(t, txt, begin, m, end)
    ensures mid != NONE ==> BestSplit(t, txt, begin, mid, end)
  {
    var d := new Dfa(t.left.cnfa, txt, 2 * t.left.cnfa.nstates);
    var d2 := new Dfa(t.right.cnfa, txt, 2 * t.right.cnfa.nstates);
    var lo, hi := begin, end;
    mid := NextMidpoint(d, t.left.shorter, begin, lo, hi);
    if mid == NONE {
      return;
    }
    var done := false;
    while !done
      invariant Paired(t, txt, d, d2) && fresh(d) && fresh(d.ssets) && fresh(d2) && fresh(d2.ssets)
      invariant !done ==> mid != NONE && Trying(t, txt, begin, end, lo, hi, mid)
      invariant done && mid != NONE ==> BestSplit(t, txt, begin, mid, end)
      invariant done && mid == NONE ==> forall m :: !Feasible(t, txt, begin, m, end)
      decreases if done then 0 else 1 + hi - lo
    {
      done, lo, hi, mid := TryMidpoint(t, txt, d, d2, begin, end, lo, hi, mid);
    }
  }

  /** Dissect a match of `t`. It never fails if `t` accepts the substring, and then
      records just what the node captures there. */
  method Dissect(t: Subre, txt: Text, begin: nat, end: nat, pmatch: array<(int, int)>) returns (code: Code)
    requires Composed(t, txt) && begin <= end <= |txt.col|
    modifies pmatch
    ensures Accepted(t, txt, begin, end) ==> code == Okay && pmatch[..] == Recorded(old(pmatch[..]), Captures(t, txt, begin, end))
    decreases t, 2
  {
    match t.op {
      case '=' => code := Okay;
      case '|' => code := AlternationDissect(t, txt, begin, end, pmatch);
      case '.' => code := ConcatenationDissect(t, txt, begin, end, pmatch);
      case '(' =>
        Subset(pmatch, t.subno, begin, end);
        ghost var p := pmatch[..];
        code := Dissect(t.left, txt, begin, end, pmatch);
        if Accepted(t, txt, begin, end) {
          ghost var c := Capture(t.subno, begin, end);
          RecordedAppend(old(pmatch[..]), [c], Captures(t.left, txt, begin, end));
        }
      case _ => code := AssertFailed;
    }
  }

  /** The captures of a concatenation are those on both sides of the preferred split. */
  lemma CapturesSplit(t: Subre, txt: Text, b: int, e: int, m: int)
    requires Composed(t, txt) && t.op == '.' && Accepted(t, txt, b, e) && BestSplit(t, txt, b, m, e)
    ensures Captures(t, txt, b, e) == Captures(t.left, txt, b, m) + Captures(t.right, txt, m, e)
  {
    BestSplitExists(t, txt, b, e);
    var k :| BestSplit(t, txt, b, k, e) && Captures(t, txt, b, e) == Captures(t.left, txt, b, k) + Captures(t.right, txt, k, e);
    assert k == m;
  }

  /** A concatenation fails exactly if it does not accept the substring. */
  method ConcatenationDissect(t: Subre, txt: Text, begin: nat, end: nat, pmatch: array<(int, int)>) returns (code: Code)
    requires Composed(t, txt) && t.op == '.' && begin <= end <= |txt.col|
    modifies pmatch
    ensures code == if Accepted(t, txt, begin, end) then Okay else AssertFailed
    ensures code == Okay ==> pmatch[..] == Recorded(old(pmatch[..]), Captures(t, txt, begin, end))
    ensures code != Okay ==> pmatch[..] == old(pmatch[..])
    decreases t, 1
  {
    var mid := Midpoint(t, txt, begin, end);
    if mid == NONE {
      return AssertFailed;
    }
    assert Feasible(t, txt, begin, mid, end);
    CapturesSplit(t, txt, begin, end, mid);
    ghost var p := pmatch[..];
    code := Dissect(t.left, txt, begin, mid, pmatch);
    if code != Okay {
      return;
    }
    code := Dissect(t.right, txt, mid, end, pmatch);
    RecordedAppend(p, Captures(t.left, txt, begin, mid), Captures(t.right, txt, mid, end));
  }

  /** An alternation fails exactly if no alternative accepts the substring. */
  method AlternationDissect(t: Subre, txt: Text, begin: nat, end: nat, pmatch: array<(int, int)>) returns (code: Code)
    requires Composed(t, txt) && t.op == '|' && begin <= end <= |txt.col|
    modifies pmatch
    ensures code == if Accepted(t, txt, begin, end) then Okay else AssertFailed
    ensures code == Okay ==> pmatch[..] == Recorded(old(pmatch[..]), Captures(t, txt, begin, end))
    ensures code != Okay ==> pmatch[..] == old(pmatch[..])
    decreases t, 1
  {
    var u := t;
    while u.Subre?
      invariant Chained(u, txt) && (u == t || u < t) && pmatch[..] == old(pmatch[..])
      invariant SomeAlternative(t, txt, begin, end) <==> SomeAlternative(u, txt, begin, end)
      invariant SomeAlternative(t, txt, begin, end) ==> ChainCaptures(t, txt, begin, end) == ChainCaptures(u, txt, begin, end)
      decreases u
    {
      var d := new Dfa(u.left.cnfa, txt, 2 * u.left.cnfa.nstates);
      var ok := Reaches(d, begin, end);
      if ok {
        code := Dissect(u.left, txt, begin, end, pmatch);
        return;
      }
      u := u.right;
    }
    code := AssertFailed;
  }
}

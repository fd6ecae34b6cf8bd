/** Fragments whose arcs other than PLAIN ones have no cycle, and how far apart a ranking may put
    the ends of one. */
module Climbing {
  import opened Automaton
  import opened Fragments
  import Empties
  import Weights

  /** Arcs other than PLAIN ones lead up; EMPTY ones have no colour. */
  ghost predicate Steep(A: set<Arc>, rank: nat -> int) {
    forall a :: a in A && a.kind != Plain ==> rank(a.from) < rank(a.to) && (a.kind == Empty ==> a.co == 0)
  }

  /** Some ranking puts `q` higher than `p` by `d`. */
  ghost predicate Tilts(A: set<Arc>, p: nat, q: nat, d: int) { exists rank: nat -> int :: Steep(A, rank) && rank(q) - rank(p) == d }

  /** Any distance will do; if a way without PLAIN arcs leads from `p` to `q`, any that is large enough. */
  ghost predicate Supple(A: set<Arc>, p: nat, q: nat, way: bool) {
    exists least: int :: TiltsFrom(A, p, q, way, least)
  }

  ghost predicate TiltsFrom(A: set<Arc>, p: nat, q: nat, way: bool, least: int) { forall d: int :: !way || d >= least ==> Tilts(A, p, q, d) }

  lemma SuppleMore(A: set<Arc>, p: nat, q: nat, way: bool, way': bool)
    requires Supple(A, p, q, way) && (way ==> way')
    ensures Supple(A, p, q, way')
  {
    var least: int :| TiltsFrom(A, p, q, way, least);
    assert TiltsFrom(A, p, q, way', least);
  }

  lemma TiltsFewer(A: set<Arc>, B: set<Arc>, p: nat, q: nat, d: int)
    requires Tilts(A, p, q, d) && B <= A
    ensures Tilts(B, p, q, d)
  {
    var rank: nat -> int :| Steep(A, rank) && rank(q) - rank(p) == d;
    assert Steep(B, rank);
  }

  lemma SuppleFewer(A: set<Arc>, B: set<Arc>, p: nat, q: nat, way: bool)
    requires Supple(A, p, q, way) && B <= A
    ensures Supple(B, p, q, way)
  {
    var least: int :| TiltsFrom(A, p, q, way, least);
    forall d: int | !way || d >= least ensures Tilts(B, p, q, d) { TiltsFewer(A, B, p, q, d); }
    assert TiltsFrom(B, p, q, way, least);
  }

  /** With a ranking that can be put anywhere above zero. */
  lemma SuppleIsRanked(A: set<Arc>, p: nat, q: nat, way: bool)
    requires Supple(A, p, q, way)
    ensures Empties.Ranked(A)
  {
    var least: int :| TiltsFrom(A, p, q, way, least);
    assert Tilts(A, p, q, least);
    var rank: nat -> int :| Steep(A, rank) && rank(q) - rank(p) == least;
    var low := Lowest(A, rank);
    var r := (s: nat) => if rank(s) >= low then rank(s) - low else 0;
    assert Empties.Climbs(A, r);
  }

  lemma {:induction false} Lowest(A: set<Arc>, rank: nat -> int) returns (low: int)
    ensures forall a :: a in A ==> rank(a.from) >= low && rank(a.to) >= low
    decreases |A|
  {
    if A == {} {
      low := 0;
    } else {
      var a :| a in A;
      var l := Lowest(A - {a}, rank);
      low := l;
      if rank(a.from) < low { low := rank(a.from); }
      if rank(a.to) < low { low := rank(a.to); }
    }
  }

  // ----- arcs that stand for others

  /** Every arc of `B` is one of `A` between the states that `f` gives. */
  ghost predicate Images(A: set<Arc>, B: set<Arc>, f: nat -> nat) {
    forall b :: b in B ==> Arc(b.kind, b.co, f(b.from), f(b.to)) in A
  }

  lemma TiltsImage(A: set<Arc>, B: set<Arc>, f: nat -> nat, p: nat, q: nat, p': nat, q': nat, d: int)
    requires Tilts(A, p, q, d) && Images(A, B, f) && f(p') == p && f(q') == q
    ensures Tilts(B, p', q', d)
  {
    var rank: nat -> int :| Steep(A, rank) && rank(q) - rank(p) == d;
    var r := (s: nat) => rank(f(s));
    forall b | b in B && b.kind != Plain ensures r(b.from) < r(b.to) && (b.kind == Empty ==> b.co == 0) {
      assert Arc(b.kind, b.co, f(b.from), f(b.to)) in A;
    }
    assert Steep(B, r);
  }

  lemma RankedImage(A: set<Arc>, B: set<Arc>, f: nat -> nat)
    requires Empties.Ranked(A) && Images(A, B, f)
    ensures Empties.Ranked(B)
  {
    var rank: nat -> nat :| Empties.Climbs(A, rank);
    var r := (s: nat) => rank(f(s));
    forall b | b in B && b.kind != Plain ensures r(b.from) < r(b.to) && (b.kind == Empty ==> b.co == 0) {
      assert Arc(b.kind, b.co, f(b.from), f(b.to)) in A;
    }
    assert Empties.Climbs(B, r);
  }

  lemma SuppleImage(A: set<Arc>, B: set<Arc>, f: nat -> nat, p: nat, q: nat, p': nat, q': nat, way: bool)
    requires Supple(A, p, q, way) && Images(A, B, f) && f(p') == p && f(q') == q
    ensures Supple(B, p', q', way)
  {
    var least: int :| TiltsFrom(A, p, q, way, least);
    forall d: int | !way || d >= least ensures Tilts(B, p', q', d) { TiltsImage(A, B, f, p, q, p', q', d); }
    assert TiltsFrom(B, p', q', way, least);
  }

  /** What the states of a copy are copies of. */
  ghost function Original(no: map<nat, nat>, begin: nat, end: nat, init: nat, final: nat, s: nat): nat {
    if s == init then begin else if s == final then end else if s in no.Values then (var u :| u in no && no[u] == s; u) else s
  }

  ghost function Originals(no: map<nat, nat>, begin: nat, end: nat, init: nat, final: nat): nat -> nat {
    (s: nat) => Original(no, begin, end, init, final, s)
  }

  lemma CopiesAreImages(A: set<Arc>, B: set<Arc>, R: set<nat>, no: map<nat, nat>, begin: nat, end: nat, init: nat, final: nat)
    requires (forall u, v :: u in no && v in no && no[u] == no[v] ==> u == v) && no.Keys == R - {begin} && end !in R && init != final
    requires forall u :: u in no ==> no[u] != init && no[u] != final
    requires forall a :: a in A && a.from in R ==> a.to == end || (a.to in R && a.to != begin)
    requires forall b :: b in B ==> exists a :: a in A && a.from in R && b == Strung(a, no, begin, end, init, final)
    ensures Images(A, B, Originals(no, begin, end, init, final))
  {
    var f := Originals(no, begin, end, init, final);
    forall b | b in B ensures Arc(b.kind, b.co, f(b.from), f(b.to)) in A {
      var a :| a in A && a.from in R && b == Strung(a, no, begin, end, init, final);
      if a.from != begin { assert a.from in no && b.from == no[a.from] && b.from in no.Values; }
      if a.to != end { assert a.to in no && b.to == no[a.to] && b.to in no.Values; }
      assert Arc(b.kind, b.co, f(b.from), f(b.to)) == a;
    }
  }

  // ----- one after the other

  /** All arcs join states of `J`. */
  ghost predicate Among(A: set<Arc>, J: set<nat>) { forall a :: a in A ==> a.from in J && a.to in J }

  function Joint(J: set<nat>, r1: nat -> int, r2: nat -> int, m: nat): nat -> int {
    (s: nat) => if s in J && s != m then r2(s) - r2(m) + r1(m) else r1(s)
  }

  lemma TiltsInARow(A: set<Arc>, B: set<Arc>, C: set<Arc>, I: set<nat>, J: set<nat>, p: nat, m: nat, q: nat, d: int, e: int)
    requires Tilts(A, p, m, d) && Tilts(B, m, q, e) && C <= A + B
    requires Among(A, I) && Among(B, J) && I * J <= {m} && p !in J && q in J && q != m
    ensures Tilts(C, p, q, d + e)
  {
    var r1: nat -> int :| Steep(A, r1) && r1(m) - r1(p) == d;
    var r2: nat -> int :| Steep(B, r2) && r2(q) - r2(m) == e;
    var r := Joint(J, r1, r2, m);
    forall c | c in C && c.kind != Plain ensures r(c.from) < r(c.to) && (c.kind == Empty ==> c.co == 0) {
      if c in A {
        assert c.from in J ==> c.from in I * J;
        assert c.to in J ==> c.to in I * J;
      } else {
        assert c in B && c.from in J && c.to in J;
      }
    }
    assert Steep(C, r);
  }

  lemma SuppleInARow(A: set<Arc>, B: set<Arc>, C: set<Arc>, I: set<nat>, J: set<nat>, p: nat, m: nat, q: nat, way: bool, way': bool)
    requires Supple(A, p, m, way) && Supple(B, m, q, way') && C <= A + B
    requires Among(A, I) && Among(B, J) && I * J <= {m} && p !in J && q in J && q != m
    ensures Supple(C, p, q, way && way')
  {
    var l1: int :| TiltsFrom(A, p, m, way, l1);
    var l2: int :| TiltsFrom(B, m, q, way', l2);
    forall d: int | !(way && way') || d >= l1 + l2 ensures Tilts(C, p, q, d) {
      var e := if way then l1 else d - l2;
      assert Tilts(A, p, m, e) && Tilts(B, m, q, d - e);
      TiltsInARow(A, B, C, I, J, p, m, q, e, d - e);
    }
    assert TiltsFrom(C, p, q, way && way', l1 + l2);
  }

  // ----- side by side

  function Beside(K: set<nat>, l: nat, r1: nat -> int, r2: nat -> int, p: nat): nat -> int {
    (s: nat) => if s in K then r2(s) - r2(l) + r1(p) + 1 else r1(s)
  }

  /** `A` from `p` to `q`, and beside it `B` from `l` to `r`, hung in by EMPTY arcs. */
  lemma TiltsBeside(A: set<Arc>, B: set<Arc>, C: set<Arc>, I: set<nat>, K: set<nat>, p: nat, q: nat, l: nat, r: nat, d: int)
    requires Tilts(A, p, q, d) && Tilts(B, l, r, d - 2) && C <= A + B + {EmptyArc(p, l), EmptyArc(r, q)}
    requires Among(A, I) && Among(B, K) && I !! K && p !in K && q !in K && l in K && r in K
    ensures Tilts(C, p, q, d)
  {
    var r1: nat -> int :| Steep(A, r1) && r1(q) - r1(p) == d;
    var r2: nat -> int :| Steep(B, r2) && r2(r) - r2(l) == d - 2;
    var rank := Beside(K, l, r1, r2, p);
    forall c | c in C && c.kind != Plain ensures rank(c.from) < rank(c.to) && (c.kind == Empty ==> c.co == 0) {
      if c in A {
        assert c.from in I && c.to in I;
      }
    }
    assert Steep(C, rank);
  }

  lemma SuppleBeside(A: set<Arc>, B: set<Arc>, C: set<Arc>, I: set<nat>, K: set<nat>, p: nat, q: nat, l: nat, r: nat, way: bool, way': bool)
    requires Supple(A, p, q, way) && Supple(B, l, r, way') && C <= A + B + {EmptyArc(p, l), EmptyArc(r, q)}
    requires Among(A, I) && Among(B, K) && I !! K && p !in K && q !in K && l in K && r in K
    ensures Supple(C, p, q, way || way')
  {
    var l1: int :| TiltsFrom(A, p, q, way, l1);
    var l2: int :| TiltsFrom(B, l, r, way', l2);
    var least := if l1 > l2 + 2 then l1 else l2 + 2;
    forall d: int | !(way || way') || d >= least ensures Tilts(C, p, q, d) {
      assert Tilts(A, p, q, d) && Tilts(B, l, r, d - 2);
      TiltsBeside(A, B, C, I, K, p, q, l, r, d);
    }
    assert TiltsFrom(C, p, q, way || way', least);
  }

  // ----- no arcs, one arc, arcs around

  lemma SuppleLabels(C: set<Arc>, p: nat, q: nat, way: bool)
    requires p != q && forall c :: c in C ==> c.from == p && c.to == q && (c.kind == Empty ==> c.co == 0)
    requires (exists c :: c in C && c.kind != Plain) ==> way
    ensures Supple(C, p, q, way)
  {
    forall d: int | !way || d >= 1 ensures Tilts(C, p, q, d) {
      var rank := (s: nat) => if s == q then d else 0;
      assert Steep(C, rank);
    }
    assert TiltsFrom(C, p, q, way, 1);
  }

  lemma SuppleAround(A: set<Arc>, C: set<Arc>, p: nat, q: nat, way: bool)
    requires Supple(A, p, q, way) && C <= A + {EmptyArc(p, q)}
    ensures Supple(C, p, q, true)
  {
    var l: int :| TiltsFrom(A, p, q, way, l);
    var least := if l > 1 then l else 1;
    forall d: int | d >= least ensures Tilts(C, p, q, d) {
      assert Tilts(A, p, q, d);
      var rank: nat -> int :| Steep(A, rank) && rank(q) - rank(p) == d;
      assert Steep(C, rank);
    }
    assert TiltsFrom(C, p, q, true, least);
  }

  // ----- around and around

  function Hung(r0: nat -> int, s: nat, t: nat, p: nat, q: nat, rs: int, rt: int, d: int): nat -> int {
    (u: nat) => if u == p then 0 else if u == q then d else if u == s then rs else if u == t then rt else r0(u)
  }

  /** Looped around `s`: without a way through, its ends may be ranked the same. */
  lemma SuppleStar(A: set<Arc>, C: set<Arc>, I: set<nat>, p: nat, q: nat, s: nat)
    requires Supple(A, p, q, false) && Among(A, I + {p, q}) && p != q && s != p && s != q && s !in I && p !in I && q !in I
    requires forall c :: c in C ==> c in {EmptyArc(p, s), EmptyArc(s, q)} || Hangs(A, c, p, q, s, s)
    ensures Supple(C, p, q, true)
  {
    var l: int :| TiltsFrom(A, p, q, false, l);
    assert Tilts(A, p, q, 0);
    var r0: nat -> int :| Steep(A, r0) && r0(q) - r0(p) == 0;
    forall d: int | d >= 2 ensures Tilts(C, p, q, d) {
      var rank := Hung((u: nat) => r0(u) - r0(p) + 1, s, s, p, q, 1, 1, d);
      forall c | c in C && c.kind != Plain ensures rank(c.from) < rank(c.to) && (c.kind == Empty ==> c.co == 0) {
        if c !in {EmptyArc(p, s), EmptyArc(s, q)} {
          var a := Unhung(A, c, p, q, s, s);
        }
      }
      assert Steep(C, rank);
    }
    assert TiltsFrom(C, p, q, true, 2);
  }

  /** `c` is an arc of `A` whose ends, if they were `p` and `q`, are now `s` and `t`. */
  ghost predicate Hangs(A: set<Arc>, c: Arc, p: nat, q: nat, s: nat, t: nat) {
    exists a :: a in A && c == a.(from := if a.from == p then s else a.from, to := if a.to == q then t else a.to)
                && a.from != q && a.to != p
  }

  lemma Unhung(A: set<Arc>, c: Arc, p: nat, q: nat, s: nat, t: nat) returns (a: Arc)
    requires Hangs(A, c, p, q, s, t)
    ensures a in A && c == a.(from := if a.from == p then s else a.from, to := if a.to == q then t else a.to) && a.from != q && a.to != p
  {
    a :| a in A && c == a.(from := if a.from == p then s else a.from, to := if a.to == q then t else a.to) && a.from != q && a.to != p;
  }

  /** With a way back: without a way through, its left end may be ranked above its right end. */
  lemma SupplePlus(A: set<Arc>, C: set<Arc>, I: set<nat>, p: nat, q: nat, s: nat, t: nat)
    requires Supple(A, p, q, false) && Among(A, I + {p, q}) && p != q && s != t && {s, t} !! I + {p, q} && p !in I && q !in I
    requires forall c :: c in C ==> c in {EmptyArc(p, s), EmptyArc(t, q), EmptyArc(t, s)} || Hangs(A, c, p, q, s, t)
    ensures Supple(C, p, q, false)
  {
    var l: int :| TiltsFrom(A, p, q, false, l);
    forall d: int ensures Tilts(C, p, q, d) {
      var e := if d < 1 then d - 2 else -1;
      assert Tilts(A, p, q, e);
      var r0: nat -> int :| Steep(A, r0) && r0(q) - r0(p) == e;
      var rank := Hung((u: nat) => r0(u) - r0(p) + 1, s, t, p, q, 1, 1 + e, d);
      forall c | c in C && c.kind != Plain ensures rank(c.from) < rank(c.to) && (c.kind == Empty ==> c.co == 0) {
        if c !in {EmptyArc(p, s), EmptyArc(t, q), EmptyArc(t, s)} {
          var a := Unhung(A, c, p, q, s, t);
        }
      }
      assert Steep(C, rank);
    }
    assert TiltsFrom(C, p, q, false, 0);
  }
}

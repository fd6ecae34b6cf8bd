/** Why pulling and pushing constraints comes to an end: weights of states that bear what arcs of no
    width bring there. */
module Weights {
  import opened Automaton
  import opened Surgery
  import opened NfaModel
  import opened Empties

  predicate Back(a: Arc) { a.kind == Begin || a.kind == Behind }

  predicate Forth(a: Arc) { a.kind == End || a.kind == Ahead }

  lemma RankedFewer(A: set<Arc>, B: set<Arc>)
    requires Ranked(A) && forall b :: b in B && b.kind != Plain ==> b in A
    ensures Ranked(B)
  {
    var rank: nat -> nat :| Climbs(A, rank);
    assert Climbs(B, rank);
  }

  // ----- sums

  lemma {:induction false} TotalOrdered(E: set<Arc>, c: Arc -> nat, d: Arc -> nat)
    requires forall e :: e in E ==> c(e) <= d(e)
    ensures Total(E, c) <= Total(E, d)
    decreases |E|
  {
    if E != {} {
      var e :| e in E;
      TotalWithout(E, e, c);
      TotalWithout(E, e, d);
      TotalOrdered(E - {e}, c, d);
    }
  }

  lemma TotalSame(E: set<Arc>, c: Arc -> nat, d: Arc -> nat)
    requires forall e :: e in E ==> c(e) == d(e)
    ensures Total(E, c) == Total(E, d)
  {
    TotalOrdered(E, c, d);
    TotalOrdered(E, d, c);
  }

  lemma TotalFewer(E: set<Arc>, F: set<Arc>, c: Arc -> nat)
    requires E <= F
    ensures Total(E, c) <= Total(F, c)
  {
    assert E <= F + {};
    TotalWithin(E, F, {}, c);
  }

  lemma TotalOne(e: Arc, c: Arc -> nat)
    ensures Total({e}, c) == c(e)
  {
    TotalWithout({e}, e, c);
    assert {e} - {e} == {};
  }

  /** The arcs `E`, led to `z`. */
  function Led(E: set<Arc>, z: nat): set<Arc> { set a | a in E :: a.(to := z) }

  lemma {:induction false} TotalLed(E: set<Arc>, z: nat, c: Arc -> nat)
    requires forall a :: a in E ==> c(a.(to := z)) == c(a)
    ensures Total(Led(E, z), c) <= Total(E, c)
    decreases |E|
  {
    if E == {} {
      assert Led(E, z) == {};
    } else {
      var e :| e in E;
      TotalWithout(E, e, c);
      TotalLed(E - {e}, z, c);
      assert Led(E, z) <= Led(E - {e}, z) + {e.(to := z)};
      TotalWithin(Led(E, z), Led(E - {e}, z), {e.(to := z)}, c);
      TotalOne(e.(to := z), c);
    }
  }

  // ----- weights

  /** What an arc brings to the state that it leads to. */
  function Burden(w: nat -> nat): Arc -> nat { (a: Arc) => BurdenOf(w, a) }

  function BurdenOf(w: nat -> nat, a: Arc): nat {
    if a.kind == Plain then 0 else if Back(a) then 2 * w(a.from) else w(a.from) + 1
  }

  function Origin(w: nat -> nat): Arc -> nat { (a: Arc) => w(a.from) }

  /** The state's weight bears what arcs bring to it. */
  ghost predicate Bears(A: set<Arc>, w: nat -> nat, s: nat) { w(s) >= 1 + Total(InArcs(A, s), Burden(w)) }

  ghost predicate Weighted(A: set<Arc>, w: nat -> nat) { forall s: nat :: Bears(A, w, s) }

  function BacksOf(A: set<Arc>): set<Arc> { set a | a in A && Back(a) }

  /** The back constraints, each with the weight of its source. */
  ghost function Mass(A: set<Arc>, w: nat -> nat): nat { Total(BacksOf(A), Origin(w)) }

  ghost function MassInto(A: set<Arc>, w: nat -> nat, s: nat): nat { Total(BacksOf(InArcs(A, s)), Origin(w)) }

  lemma ArcBorne(A: set<Arc>, w: nat -> nat, a: Arc)
    requires Weighted(A, w) && a in A && a.kind != Plain
    ensures w(a.from) < w(a.to) && Burden(w)(a) < w(a.to)
  {
    assert Bears(A, w, a.to) && Bears(A, w, a.from);
    TotalWithout(InArcs(A, a.to), a, Burden(w));
  }

  lemma WeightsClimb(A: set<Arc>, w: nat -> nat)
    requires Weighted(A, w) && forall a :: a in A ==> a.kind != Empty
    ensures Ranked(A)
  {
    forall a | a in A && a.kind != Plain ensures w(a.from) < w(a.to) { ArcBorne(A, w, a); }
    assert Climbs(A, w);
  }

  /** As EMPTY elimination has it. */
  lemma RankedAcyclic(A: set<Arc>) returns (S: set<nat>, rank: nat -> nat, top: nat)
    requires Ranked(A)
    ensures Acyclic(A, S, rank, top)
  {
    var r: nat -> nat :| Climbs(A, r);
    top := RankBound(A, r);
    var bound := top;
    rank := (s: nat) => if r(s) < bound then bound - r(s) else 0;
    S := (set a | a in A :: a.from) + (set a | a in A :: a.to);
  }

  lemma FewerWeighted(A: set<Arc>, B: set<Arc>, w: nat -> nat)
    requires Weighted(A, w) && B <= A
    ensures Weighted(B, w) && Mass(B, w) <= Mass(A, w)
    ensures forall s :: MassInto(B, w, s) <= MassInto(A, w, s)
  {
    forall s ensures Bears(B, w, s) {
      assert Bears(A, w, s) && InArcs(B, s) <= InArcs(A, s);
      TotalFewer(InArcs(B, s), InArcs(A, s), Burden(w));
    }
    assert BacksOf(B) <= BacksOf(A);
    TotalFewer(BacksOf(B), BacksOf(A), Origin(w));
    forall s ensures MassInto(B, w, s) <= MassInto(A, w, s) {
      assert BacksOf(InArcs(B, s)) <= BacksOf(InArcs(A, s));
      TotalFewer(BacksOf(InArcs(B, s)), BacksOf(InArcs(A, s)), Origin(w));
    }
  }

  lemma BackLost(A: set<Arc>, con: Arc, w: nat -> nat)
    requires Weighted(A, w) && con in A && Back(con)
    ensures Weighted(A - {con}, w) && Mass(A - {con}, w) < Mass(A, w)
  {
    FewerWeighted(A, A - {con}, w);
    TotalWithout(BacksOf(A), con, Origin(w));
    assert BacksOf(A - {con}) == BacksOf(A) - {con};
    assert Bears(A, w, con.from);
  }

  /** Whatever the weights before, there are weights after that make the mass less. */
  ghost predicate Lowers(A: set<Arc>, B: set<Arc>) {
    forall w: nat -> nat :: Weighted(A, w) ==> exists v: nat -> nat :: Weighted(B, v) && Mass(B, v) < Mass(A, w)
  }

  /** The mass may have come to be what comes into `s` more, no more. */
  ghost predicate Loaded(A: set<Arc>, w: nat -> nat, s: nat, m: nat) { Weighted(A, w) && Mass(A, w) <= m + MassInto(A, w, s) }

  ghost predicate StaysLoaded(A: set<Arc>, B: set<Arc>, s: nat) {
    forall w: nat -> nat, m: nat :: Loaded(A, w, s, m) ==> exists v: nat -> nat :: Loaded(B, v, s, m)
  }

  lemma StaysTransitive(A: set<Arc>, B: set<Arc>, C: set<Arc>, s: nat)
    requires StaysLoaded(A, B, s) && StaysLoaded(B, C, s)
    ensures StaysLoaded(A, C, s)
  {
    forall w: nat -> nat, m: nat | Loaded(A, w, s, m) ensures exists v: nat -> nat :: Loaded(C, v, s, m) {
      var v: nat -> nat :| Loaded(B, v, s, m);
    }
  }

  function Set(w: nat -> nat, s: nat, n: nat): nat -> nat { (u: nat) => if u == s then n else w(u) }

  // ----- a source of its own

  lemma ClonedWeighted(A: set<Arc>, con: Arc, z: nat, w: nat -> nat)
    requires Weighted(A, w) && con in A && Back(con) && con.from != con.to && Untouched(A, z)
    ensures Loaded(CloneFrom(A, con, z), Set(w, z, w(con.from)), z, Mass(A, w))
  {
    var B, v, copies, own := CloneFrom(A, con, z), Set(w, z, w(con.from)), Led(InArcs(A, con.from), z), con.(from := z);
    forall s ensures Bears(B, v, s) { CloneBears(A, con, z, w, s); }
    assert BacksOf(B) <= (BacksOf(A) - {con}) + {own} + BacksOf(copies);
    TotalWithin(BacksOf(B), BacksOf(A) - {con} + {own}, BacksOf(copies), Origin(v));
    TotalWithin(BacksOf(A) - {con} + {own}, BacksOf(A) - {con}, {own}, Origin(v));
    TotalSame(BacksOf(A) - {con}, Origin(w), Origin(v));
    TotalWithout(BacksOf(A), con, Origin(w));
    TotalOne(own, Origin(v));
    assert BacksOf(InArcs(B, z)) == BacksOf(copies);
  }

  lemma CloneBears(A: set<Arc>, con: Arc, z: nat, w: nat -> nat, s: nat)
    requires Weighted(A, w) && con in A && Back(con) && con.from != con.to && Untouched(A, z)
    ensures Bears(CloneFrom(A, con, z), Set(w, z, w(con.from)), s)
  {
    var B, v := CloneFrom(A, con, z), Set(w, z, w(con.from));
    assert Bears(A, w, s);
    TotalSame(InArcs(A, s), Burden(w), Burden(v));
    if s == z {
      CloneItselfBears(A, con, z, w);
    } else if s == con.to {
      ConMovedBears(A, B, con, z, w, v);
    } else {
      assert InArcs(B, s) == InArcs(A, s);
    }
  }

  lemma CloneItselfBears(A: set<Arc>, con: Arc, z: nat, w: nat -> nat)
    requires Weighted(A, w) && con in A && con.from != con.to && Untouched(A, z)
    ensures Bears(CloneFrom(A, con, z), Set(w, z, w(con.from)), z)
  {
    var B, v, ins := CloneFrom(A, con, z), Set(w, z, w(con.from)), InArcs(A, con.from);
    assert Bears(A, w, con.from);
    assert InArcs(B, z) == Led(ins, z);
    TotalSame(ins, Burden(w), Burden(v));
    TotalLed(ins, z, Burden(v));
  }

  lemma ConMovedBears(A: set<Arc>, B: set<Arc>, con: Arc, z: nat, w: nat -> nat, v: nat -> nat)
    requires con in A && Back(con) && Bears(A, w, con.to) && InArcs(B, con.to) <= (InArcs(A, con.to) - {con}) + {con.(from := z)}
    requires v(z) == w(con.from) && v(con.to) == w(con.to)
    requires Total(InArcs(A, con.to), Burden(v)) == Total(InArcs(A, con.to), Burden(w)) && v(con.from) == w(con.from)
    ensures Bears(B, v, con.to)
  {
    var ins, own := InArcs(A, con.to), con.(from := z);
    TotalWithin(InArcs(B, con.to), ins - {con}, {own}, Burden(v));
    TotalWithout(ins, con, Burden(v));
    TotalOne(own, Burden(v));
  }

  // ----- past another arc

  /** `con` at `s` has passed `a`, through `z`. */
  ghost predicate PassesBack(A: set<Arc>, con: Arc, a: Arc, z: nat) {
    && Back(con) && con.from != con.to && OutArcs(A, con.from) == {con} && a in InArcs(A, con.from) && a.kind != Plain && !Back(a)
    && Untouched(A, z)
  }

  function PassedBack(A: set<Arc>, con: Arc, a: Arc, z: nat): set<Arc> {
    A + {con.(from := a.from, to := z), a.(from := z, to := con.to)} - {a}
  }

  function PassedWeights(w: nat -> nat, con: Arc, a: Arc, z: nat): nat -> nat {
    var less := w(con.from) - w(a.from) - 1;
    Set(Set(w, z, 1 + 2 * w(a.from)), con.from, if less >= 0 then less else 0)
  }

  lemma PassedWeighted(A: set<Arc>, con: Arc, a: Arc, z: nat, w: nat -> nat, m: nat)
    requires PassesBack(A, con, a, z) && Loaded(A, w, con.from, m)
    ensures Loaded(PassedBack(A, con, a, z), PassedWeights(w, con, a, z), con.from, m)
  {
    var B, v, s, p := PassedBack(A, con, a, z), PassedWeights(w, con, a, z), con.from, con.(from := a.from, to := z);
    assert con in OutArcs(A, s);
    assert a.from != s by { assert a.from == s ==> a in OutArcs(A, s); }
    forall u ensures Bears(B, v, u) { PassedBears(A, con, a, z, w, u); }
    ArcBorne(A, w, a);
    assert BacksOf(B) <= (BacksOf(A) - {con}) + {con} + {p};
    assert BacksOf(A) - {con} + {con} == BacksOf(A);
    TotalWithin(BacksOf(B), BacksOf(A), {p}, Origin(v));
    TotalWithout(BacksOf(A), con, Origin(v));
    TotalWithout(BacksOf(A), con, Origin(w));
    forall b | b in BacksOf(A) - {con} ensures Origin(w)(b) == Origin(v)(b) { assert b.from == s ==> b in OutArcs(A, s); }
    TotalSame(BacksOf(A) - {con}, Origin(w), Origin(v));
    TotalOne(p, Origin(v));
    forall b | b in InArcs(A, s) ensures b.from != s { assert b.from == s ==> b in OutArcs(A, s); }
    assert BacksOf(InArcs(B, s)) == BacksOf(InArcs(A, s));
    TotalSame(BacksOf(InArcs(A, s)), Origin(w), Origin(v));
  }

  lemma PassedBears(A: set<Arc>, con: Arc, a: Arc, z: nat, w: nat -> nat, u: nat)
    requires PassesBack(A, con, a, z) && Weighted(A, w) && a.from != con.from
    ensures Bears(PassedBack(A, con, a, z), PassedWeights(w, con, a, z), u)
  {
    var B, v, s := PassedBack(A, con, a, z), PassedWeights(w, con, a, z), con.from;
    var p, q := con.(from := a.from, to := z), a.(from := z, to := con.to);
    assert con in OutArcs(A, s);
    assert Bears(A, w, u) && Bears(A, w, s);
    ArcBorne(A, w, a);
    forall b | b in A && b != con ensures Burden(w)(b) == Burden(v)(b) { assert b.from == s ==> b in OutArcs(A, s); }
    if u == z {
      assert InArcs(B, u) == {p};
      TotalOne(p, Burden(v));
    } else if u == s {
      assert InArcs(B, u) == InArcs(A, u) - {a};
      TotalWithout(InArcs(A, u), a, Burden(w));
      TotalSame(InArcs(A, u) - {a}, Burden(w), Burden(v));
    } else if u == con.to {
      assert InArcs(B, u) == (InArcs(A, u) - {con}) + {con, q};
      TotalWithin(InArcs(B, u), InArcs(A, u) - {con}, {con, q}, Burden(v));
      TotalWithin({con, q}, {con}, {q}, Burden(v));
      TotalWithout(InArcs(A, u), con, Burden(w));
      TotalSame(InArcs(A, u) - {con}, Burden(w), Burden(v));
      TotalOne(con, Burden(v));
      TotalOne(q, Burden(v));
    } else {
      assert InArcs(B, u) == InArcs(A, u);
      TotalSame(InArcs(A, u), Burden(w), Burden(v));
    }
  }

  // ----- absorbed by what is left

  function AbsorbedBack(A: set<Arc>, con: Arc): set<Arc> { CopiedIns(A, con.from, con.to) - InArcs(A, con.from) - {con} }

  lemma {:induction false} DoubleMass(E: set<Arc>, w: nat -> nat)
    ensures 2 * Total(BacksOf(E), Origin(w)) <= Total(E, Burden(w))
    decreases |E|
  {
    if E == {} {
      assert BacksOf(E) == {};
    } else {
      var e :| e in E;
      DoubleMass(E - {e}, w);
      TotalWithout(E, e, Burden(w));
      assert BacksOf(E - {e}) == BacksOf(E) - {e};
      if Back(e) { TotalWithout(BacksOf(E), e, Origin(w)); } else { assert BacksOf(E) - {e} == BacksOf(E); }
    }
  }

  lemma AbsorbedWeighted(A: set<Arc>, con: Arc, w: nat -> nat, m: nat)
    requires Back(con) && con in A && con.from != con.to && Loaded(A, w, con.from, m)
    ensures Weighted(AbsorbedBack(A, con), w) && Mass(AbsorbedBack(A, con), w) < m
  {
    var B, s := AbsorbedBack(A, con), con.from;
    var ins := InArcs(A, s);
    forall u ensures Bears(B, w, u) { AbsorbedBears(A, con, w, u); }
    var backs, led := BacksOf(ins), BacksOf(Led(ins, con.to));
    assert led == Led(backs, con.to);
    TotalLed(backs, con.to, Origin(w));
    assert BacksOf(B) <= (BacksOf(A) - {con} - backs) + led;
    TotalWithin(BacksOf(B), BacksOf(A) - {con} - backs, led, Origin(w));
    Split(BacksOf(A), con, backs, Origin(w));
    DoubleMass(ins, w);
    assert Bears(A, w, s);
  }

  lemma {:induction false} Split(E: set<Arc>, e: Arc, F: set<Arc>, c: Arc -> nat)
    requires F <= E && e in E && e !in F
    ensures Total(E, c) == c(e) + Total(F, c) + Total(E - {e} - F, c)
    decreases |F|
  {
    if F == {} {
      TotalWithout(E, e, c);
      assert E - {e} - F == E - {e};
    } else {
      var f :| f in F;
      TotalWithout(F, f, c);
      TotalWithout(E, f, c);
      Split(E - {f}, e, F - {f}, c);
      assert E - {f} - {e} - (F - {f}) == E - {e} - F;
    }
  }

  lemma AbsorbedBears(A: set<Arc>, con: Arc, w: nat -> nat, u: nat)
    requires Back(con) && con in A && con.from != con.to && Weighted(A, w)
    ensures Bears(AbsorbedBack(A, con), w, u)
  {
    var B, s := AbsorbedBack(A, con), con.from;
    assert Bears(A, w, u) && Bears(A, w, s);
    if u == con.to {
      assert InArcs(B, u) <= (InArcs(A, u) - {con}) + Led(InArcs(A, s), u);
      LedBears(A, B, con, w);
    } else {
      assert InArcs(B, u) <= InArcs(A, u);
      TotalFewer(InArcs(B, u), InArcs(A, u), Burden(w));
    }
  }

  lemma LedBears(A: set<Arc>, B: set<Arc>, con: Arc, w: nat -> nat)
    requires Back(con) && con in A && Bears(A, w, con.to) && Bears(A, w, con.from)
    requires InArcs(B, con.to) <= (InArcs(A, con.to) - {con}) + Led(InArcs(A, con.from), con.to)
    ensures Bears(B, w, con.to)
  {
    var ins, led := InArcs(A, con.to), Led(InArcs(A, con.from), con.to);
    TotalWithin(InArcs(B, con.to), ins - {con}, led, Burden(w));
    TotalLed(InArcs(A, con.from), con.to, Burden(w));
    TotalWithout(ins, con, Burden(w));
  }

  // ----- what a pull does, step by step

  /** Constraint `c` has been given a source of its own. */
  ghost predicate Isolates(A: set<Arc>, B: set<Arc>, c: Arc) {
    forall w: nat -> nat :: Weighted(A, w) ==> exists v: nat -> nat :: Loaded(B, v, c.from, Mass(A, w))
  }

  /** What came into `s` is gone, and the mass is less than it was before that. */
  ghost predicate Relieves(A: set<Arc>, B: set<Arc>, s: nat) {
    forall w: nat -> nat, m: nat :: Loaded(A, w, s, m) ==> exists v: nat -> nat :: Weighted(B, v) && Mass(B, v) < m
  }

  lemma IsolatesItself(A: set<Arc>, c: Arc)
    ensures Isolates(A, A, c)
  {
    forall w: nat -> nat | Weighted(A, w) ensures exists v: nat -> nat :: Loaded(A, v, c.from, Mass(A, w)) {
      assert Loaded(A, w, c.from, Mass(A, w));
    }
  }

  lemma IsolatesByClone(A: set<Arc>, con: Arc, z: nat)
    requires con in A && Back(con) && con.from != con.to && Untouched(A, z)
    ensures Isolates(A, CloneFrom(A, con, z), con.(from := z))
  {
    forall w: nat -> nat | Weighted(A, w) ensures exists v: nat -> nat :: Loaded(CloneFrom(A, con, z), v, z, Mass(A, w)) {
      ClonedWeighted(A, con, z, w);
    }
  }

  lemma StaysByItself(A: set<Arc>, s: nat)
    ensures StaysLoaded(A, A, s)
  {
  }

  lemma StaysWithout(A: set<Arc>, a: Arc, s: nat)
    requires a in InArcs(A, s)
    ensures StaysLoaded(A, A - {a}, s)
  {
    var B := A - {a};
    forall w: nat -> nat, m: nat | Loaded(A, w, s, m) ensures Loaded(B, w, s, m) {
      FewerWeighted(A, B, w);
      assert InArcs(B, s) == InArcs(A, s) - {a};
      assert BacksOf(B) == BacksOf(A) - {a} && BacksOf(InArcs(B, s)) == BacksOf(InArcs(A, s)) - {a};
      if Back(a) {
        TotalWithout(BacksOf(A), a, Origin(w));
        TotalWithout(BacksOf(InArcs(A, s)), a, Origin(w));
      } else {
        assert BacksOf(A) - {a} == BacksOf(A) && BacksOf(InArcs(A, s)) - {a} == BacksOf(InArcs(A, s));
      }
    }
  }

  lemma StaysByPassing(A: set<Arc>, con: Arc, a: Arc, z: nat)
    requires PassesBack(A, con, a, z)
    ensures StaysLoaded(A, PassedBack(A, con, a, z), con.from)
  {
    forall w: nat -> nat, m: nat | Loaded(A, w, con.from, m) ensures exists v: nat -> nat :: Loaded(PassedBack(A, con, a, z), v, con.from, m) {
      PassedWeighted(A, con, a, z, w, m);
    }
  }

  lemma RelievesByAbsorbing(A: set<Arc>, B: set<Arc>, con: Arc)
    requires Back(con) && con in B && con.from != con.to && StaysLoaded(A, B, con.from)
    ensures Relieves(A, AbsorbedBack(B, con), con.from)
  {
    forall w: nat -> nat, m: nat | Loaded(A, w, con.from, m)
      ensures exists v: nat -> nat :: Weighted(AbsorbedBack(B, con), v) && Mass(AbsorbedBack(B, con), v) < m
    {
      var v: nat -> nat :| Loaded(B, v, con.from, m);
      AbsorbedWeighted(B, con, v, m);
    }
  }

  lemma LowersByLoss(A: set<Arc>, con: Arc)
    requires con in A && Back(con)
    ensures Lowers(A, A - {con})
  {
    forall w: nat -> nat | Weighted(A, w) ensures Weighted(A - {con}, w) && Mass(A - {con}, w) < Mass(A, w) { BackLost(A, con, w); }
  }

  lemma LowersBySteps(A: set<Arc>, B: set<Arc>, C: set<Arc>, D: set<Arc>, c: Arc)
    requires B <= A && Isolates(B, C, c) && Relieves(C, D, c.from)
    ensures Lowers(A, D)
  {
    forall w: nat -> nat | Weighted(A, w) ensures exists v: nat -> nat :: Weighted(D, v) && Mass(D, v) < Mass(A, w) {
      FewerWeighted(A, B, w);
      var u: nat -> nat :| Loaded(C, u, c.from, Mass(B, w));
    }
  }

  lemma Lighter(A: set<Arc>, B: set<Arc>, w: nat -> nat) returns (v: nat -> nat)
    requires Lowers(A, B) && Weighted(A, w)
    ensures Weighted(B, v) && Mass(B, v) < Mass(A, w)
  {
    v :| Weighted(B, v) && Mass(B, v) < Mass(A, w);
  }

  lemma LowersTransitive(A: set<Arc>, B: set<Arc>, C: set<Arc>)
    requires Lowers(A, B) && Lowers(B, C)
    ensures Lowers(A, C)
  {
    forall w: nat -> nat | Weighted(A, w) ensures exists v: nat -> nat :: Weighted(C, v) && Mass(C, v) < Mass(A, w) {
      var u: nat -> nat :| Weighted(B, u) && Mass(B, u) < Mass(A, w);
    }
  }

  // ----- weights exist

  /** Good for states below rank `k`. */
  ghost predicate WeightedBelow(A: set<Arc>, rank: nat -> nat, w: nat -> nat, k: nat) { forall s: nat :: rank(s) < k ==> Bears(A, w, s) }

  ghost function Heavier(A: set<Arc>, rank: nat -> nat, w: nat -> nat, k: nat): nat -> nat {
    (s: nat) => if rank(s) == k then 1 + Total(InArcs(A, s), Burden(w)) else w(s)
  }

  lemma {:induction false} WeightsBelow(A: set<Arc>, rank: nat -> nat, k: nat) returns (w: nat -> nat)
    requires Climbs(A, rank)
    ensures WeightedBelow(A, rank, w, k)
  {
    if k == 0 {
      w := (s: nat) => 0;
    } else {
      var v := WeightsBelow(A, rank, k - 1);
      w := Heavier(A, rank, v, k - 1);
      forall s: nat | rank(s) < k ensures Bears(A, w, s) {
        assert rank(s) < k - 1 ==> Bears(A, v, s);
        TotalSame(InArcs(A, s), Burden(v), Burden(w));
      }
    }
  }

  lemma {:induction false} RankBound(A: set<Arc>, rank: nat -> nat) returns (top: nat)
    ensures forall a :: a in A ==> rank(a.from) < top && rank(a.to) < top
    decreases |A|
  {
    if A == {} {
      top := 0;
    } else {
      var a :| a in A;
      var t := RankBound(A - {a}, rank);
      top := t + rank(a.from) + rank(a.to) + 1;
    }
  }

  /** Where arcs other than PLAIN ones have no cycle, there are weights. */
  lemma WeightsExist(A: set<Arc>) returns (w: nat -> nat)
    requires Ranked(A)
    ensures Weighted(A, w)
  {
    var rank: nat -> nat :| Climbs(A, rank);
    var top := RankBound(A, rank);
    var v := WeightsBelow(A, rank, top);
    w := Cut(rank, v, top);
    forall s: nat ensures Bears(A, w, s) { CutBears(A, rank, v, top, s); }
  }

  function Cut(rank: nat -> nat, v: nat -> nat, top: nat): nat -> nat { (s: nat) => if rank(s) < top then v(s) else 1 }

  lemma CutBears(A: set<Arc>, rank: nat -> nat, v: nat -> nat, top: nat, s: nat)
    requires WeightedBelow(A, rank, v, top) && forall a :: a in A ==> rank(a.from) < top && rank(a.to) < top
    ensures Bears(A, Cut(rank, v, top), s)
  {
    if rank(s) < top {
      assert Bears(A, v, s);
      TotalSame(InArcs(A, s), Burden(v), Burden(Cut(rank, v, top)));
    } else {
      assert InArcs(A, s) == {};
    }
  }

  // ----- the mirror image, for forward constraints

  function Mirrored(k: Kind): Kind {
    match k case Begin => End case End => Begin case Behind => Ahead case Ahead => Behind case _ => k
  }

  function Flip(a: Arc): Arc { Arc(Mirrored(a.kind), a.co, a.to, a.from) }

  function Mirror(A: set<Arc>): set<Arc> { set a | a in A :: Flip(a) }

  lemma InMirror(A: set<Arc>, a: Arc)
    ensures Flip(a) in Mirror(A) <==> a in A
    ensures a in Mirror(A) <==> Flip(a) in A
    ensures Flip(Flip(a)) == a
  {
    if Flip(a) in Mirror(A) {
      var b :| b in A && Flip(b) == Flip(a);
      assert Flip(Flip(b)) == b;
    }
    if a in Mirror(A) {
      var b :| b in A && Flip(b) == a;
      assert Flip(Flip(b)) == b;
    }
    assert Flip(Flip(a)) == a;
  }

  lemma RankedMirror(A: set<Arc>)
    requires Ranked(A)
    ensures Ranked(Mirror(A))
  {
    var rank: nat -> nat :| Climbs(A, rank);
    var top := RankBound(A, rank);
    var r := (s: nat) => if rank(s) < top then top - rank(s) else 0;
    forall b | b in Mirror(A) && b.kind != Plain ensures r(b.from) < r(b.to) && (b.kind == Empty ==> b.co == 0) {
      InMirror(A, b);
    }
    assert Climbs(Mirror(A), r);
  }

  lemma MirrorTwice(A: set<Arc>)
    ensures Mirror(Mirror(A)) == A
  {
    forall a ensures a in Mirror(Mirror(A)) <==> a in A { InMirror(A, a); InMirror(Mirror(A), a); }
  }

  lemma MirrorIs(A: set<Arc>, B: set<Arc>)
    requires forall a :: a in A <==> Flip(a) in B
    ensures Mirror(A) == B
  {
    forall b ensures b in Mirror(A) <==> b in B { InMirror(A, b); }
  }

  // ----- the steps of a push, in the mirror

  lemma MirrorFewer(A: set<Arc>, B: set<Arc>)
    requires B <= A
    ensures Mirror(B) <= Mirror(A)
  {
  }

  lemma MirrorWithout(A: set<Arc>, a: Arc)
    ensures Mirror(A - {a}) == Mirror(A) - {Flip(a)}
  {
    forall b ensures b in A - {a} <==> Flip(b) in Mirror(A) - {Flip(a)} { InMirror(A, b); InMirror({a}, b); InMirror({b}, b); }
    MirrorIs(A - {a}, Mirror(A) - {Flip(a)});
  }

  lemma MirrorInArcs(A: set<Arc>, s: nat)
    ensures InArcs(Mirror(A), s) == Mirror(OutArcs(A, s)) && OutArcs(Mirror(A), s) == Mirror(InArcs(A, s))
  {
    forall b ensures b in InArcs(Mirror(A), s) <==> b in Mirror(OutArcs(A, s)) { InMirror(A, b); InMirror(OutArcs(A, s), b); }
    forall b ensures b in OutArcs(Mirror(A), s) <==> b in Mirror(InArcs(A, s)) { InMirror(A, b); InMirror(InArcs(A, s), b); }
  }

  lemma MirrorUntouched(A: set<Arc>, z: nat)
    requires Untouched(A, z)
    ensures Untouched(Mirror(A), z)
  {
    forall b | b in Mirror(A) ensures b.from != z && b.to != z { InMirror(A, b); }
  }

  lemma MirrorClone(A: set<Arc>, con: Arc, z: nat)
    ensures Mirror(CloneTo(A, con, z)) == CloneFrom(Mirror(A), Flip(con), z)
  {
    var B, M := CloneTo(A, con, z), CloneFrom(Mirror(A), Flip(con), z);
    MirrorInArcs(A, con.to);
    forall b ensures b in B <==> Flip(b) in M {
      InMirror(A, b);
      InMirror(A, con);
      InMirror({con}, b);
      CloneArc(A, con, z, b);
    }
    MirrorIs(B, M);
  }

  /** An arc of the clone, on either side of the mirror. */
  lemma CloneArc(A: set<Arc>, con: Arc, z: nat, b: Arc)
    ensures (exists a :: a in OutArcs(A, con.to) && b == a.(from := z)) <==>
            (exists a :: a in InArcs(Mirror(A), con.to) && Flip(b) == a.(to := z))
  {
    MirrorInArcs(A, con.to);
    if a :| a in OutArcs(A, con.to) && b == a.(from := z) {
      InMirror(OutArcs(A, con.to), a);
      assert Flip(b) == Flip(a).(to := z);
    }
    if a :| a in InArcs(Mirror(A), con.to) && Flip(b) == a.(to := z) {
      InMirror(OutArcs(A, con.to), a);
      InMirror(A, b);
      assert b == Flip(Flip(b)) == Flip(a).(from := z);
    }
  }

  lemma MirrorPassed(A: set<Arc>, con: Arc, a: Arc, z: nat)
    ensures Mirror(A + {con.(from := z, to := a.to), a.(from := con.from, to := z)} - {a}) == PassedBack(Mirror(A), Flip(con), Flip(a), z)
  {
    var p, q := con.(from := z, to := a.to), a.(from := con.from, to := z);
    forall b ensures b in A + {p, q} - {a} <==> Flip(b) in PassedBack(Mirror(A), Flip(con), Flip(a), z) {
      InMirror(A, b);
      InMirror({a}, b);
      InMirror({p}, b);
      InMirror({q}, b);
      InMirror({a}, a);
      InMirror({p}, p);
      InMirror({q}, q);
    }
    MirrorIs(A + {p, q} - {a}, PassedBack(Mirror(A), Flip(con), Flip(a), z));
  }

  lemma MirrorAbsorbed(A: set<Arc>, con: Arc)
    ensures Mirror(CopiedOuts(A, con.to, con.from) - OutArcs(A, con.to) - {con}) == AbsorbedBack(Mirror(A), Flip(con))
  {
    var B, M := CopiedOuts(A, con.to, con.from) - OutArcs(A, con.to) - {con}, AbsorbedBack(Mirror(A), Flip(con));
    MirrorInArcs(A, con.to);
    forall b ensures b in B <==> Flip(b) in M {
      InMirror(A, b);
      InMirror(OutArcs(A, con.to), b);
      InMirror({con}, b);
      InMirror({con}, con);
      CloneArc(A, con, con.from, b);
    }
    MirrorIs(B, M);
  }

  // ----- the same relations, for forward constraints

  ghost predicate LowersForth(A: set<Arc>, B: set<Arc>) { Lowers(Mirror(A), Mirror(B)) }

  ghost predicate StaysLoadedForth(A: set<Arc>, B: set<Arc>, s: nat) { StaysLoaded(Mirror(A), Mirror(B), s) }

  ghost predicate IsolatesForth(A: set<Arc>, B: set<Arc>, c: Arc) { Isolates(Mirror(A), Mirror(B), Flip(c)) }

  ghost predicate RelievesForth(A: set<Arc>, B: set<Arc>, s: nat) { Relieves(Mirror(A), Mirror(B), s) }

  lemma IsolatesForthByClone(A: set<Arc>, con: Arc, z: nat)
    requires con in A && Forth(con) && con.from != con.to && Untouched(A, z)
    ensures IsolatesForth(A, CloneTo(A, con, z), con.(to := z))
  {
    InMirror(A, con);
    MirrorUntouched(A, z);
    MirrorClone(A, con, z);
    IsolatesByClone(Mirror(A), Flip(con), z);
    assert Flip(con.(to := z)) == Flip(con).(from := z);
  }

  lemma StaysForthWithout(A: set<Arc>, a: Arc, s: nat)
    requires a in OutArcs(A, s)
    ensures StaysLoadedForth(A, A - {a}, s)
  {
    MirrorInArcs(A, s);
    InMirror(OutArcs(A, s), a);
    MirrorWithout(A, a);
    StaysWithout(Mirror(A), Flip(a), s);
  }

  lemma StaysForthByPassing(A: set<Arc>, con: Arc, a: Arc, z: nat)
    requires Forth(con) && con.from != con.to && InArcs(A, con.to) == {con} && a in OutArcs(A, con.to) && a.kind != Plain && !Forth(a)
    requires Untouched(A, z)
    ensures StaysLoadedForth(A, A + {con.(from := z, to := a.to), a.(from := con.from, to := z)} - {a}, con.to)
  {
    MirrorInArcs(A, con.to);
    InMirror(OutArcs(A, con.to), a);
    assert Mirror({con}) == {Flip(con)};
    MirrorUntouched(A, z);
    MirrorPassed(A, con, a, z);
    StaysByPassing(Mirror(A), Flip(con), Flip(a), z);
  }

  lemma RelievesForthByAbsorbing(A: set<Arc>, B: set<Arc>, con: Arc)
    requires Forth(con) && con in B && con.from != con.to && StaysLoadedForth(A, B, con.to)
    ensures RelievesForth(A, CopiedOuts(B, con.to, con.from) - OutArcs(B, con.to) - {con}, con.to)
  {
    InMirror(B, con);
    MirrorAbsorbed(B, con);
    RelievesByAbsorbing(Mirror(A), Mirror(B), Flip(con));
  }

  lemma LowersForthTransitive(A: set<Arc>, B: set<Arc>, C: set<Arc>)
    requires LowersForth(A, B) && LowersForth(B, C)
    ensures LowersForth(A, C)
  {
    LowersTransitive(Mirror(A), Mirror(B), Mirror(C));
  }

  lemma LowersForthByLoss(A: set<Arc>, con: Arc)
    requires con in A && Forth(con)
    ensures LowersForth(A, A - {con})
  {
    InMirror(A, con);
    MirrorWithout(A, con);
    LowersByLoss(Mirror(A), Flip(con));
  }

  lemma LowersForthBySteps(A: set<Arc>, B: set<Arc>, C: set<Arc>, D: set<Arc>, c: Arc)
    requires B <= A && IsolatesForth(B, C, c) && RelievesForth(C, D, c.to)
    ensures LowersForth(A, D)
  {
    MirrorFewer(A, B);
    LowersBySteps(Mirror(A), Mirror(B), Mirror(C), Mirror(D), Flip(c));
  }
}

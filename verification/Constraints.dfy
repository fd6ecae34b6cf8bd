/** Pulling back constraints towards pre and pushing forward ones towards post. */
module Constraints {
  import opened Automaton
  import opened Surgery
  import opened NfaModel
  import opened Weights

  datatype Verdict = Incompatible | Satisfied | Compatible

  /** What happens when constraint `con` lands on arc `a`. */
  function Combine(con: Arc, a: Arc): Verdict
    requires Constraint(con.kind)
  {
    match (con.kind, a.kind)
    case (Begin, Plain) => Incompatible
    case (End, Plain) => Incompatible
    case (Ahead, Plain) => if con.co == a.co then Satisfied else Incompatible
    case (Behind, Plain) => if con.co == a.co then Satisfied else Incompatible
    case (Begin, Begin) => if con.co == a.co then Satisfied else Incompatible
    case (End, End) => if con.co == a.co then Satisfied else Incompatible
    case (Ahead, Ahead) => if con.co == a.co then Satisfied else Incompatible
    case (Behind, Behind) => if con.co == a.co then Satisfied else Incompatible
    case (Begin, Behind) => Incompatible
    case (Behind, Begin) => Incompatible
    case (End, Ahead) => Incompatible
    case (Ahead, End) => Incompatible
    case (_, Empty) => Incompatible
    case (_, _) => Compatible
  }

  /** Colours where colours belong: a pseudocolour appears only on a Plain arc out
      of pre (bos) or into post (eos). */
  ghost predicate Legal(x: Frame, A: set<Arc>) {
    forall a :: a in A ==> match a.kind
      case Plain => x.Real(a.co) || (a.from == x.pre && (a.co == x.bos0 || a.co == x.bos1))
                                 || (a.to == x.post && (a.co == x.eos0 || a.co == x.eos1))
      case Begin => a.co == 0 || a.co == 1
      case End => a.co == 0 || a.co == 1
      case Behind => x.Real(a.co)
      case Ahead => x.Real(a.co)
      case _ => true
  }

  /** The labels that '^' and '$' arcs end up with. */
  function EndMarks(x: Frame): set<(Kind, int)> { {(Plain, x.bos0), (Plain, x.bos1), (Plain, x.eos0), (Plain, x.eos1)} }

  /** No pseudocolours yet: what the parser leaves, given the four pseudocolours. */
  ghost predicate Ordinary(x: Frame, A: set<Arc>) {
    forall a :: a in A ==>
      && (a.kind == Plain || a.kind == Behind || a.kind == Ahead ==> x.Real(a.co))
      && (a.kind == Begin || a.kind == End ==> a.co == 0 || a.co == 1)
  }

  lemma OrdinaryLabels(x: Frame, A: set<Arc>, B: set<Arc>)
    requires Ordinary(x, A) && Labels(B) <= Labels(A)
    ensures Ordinary(x, B) && Legal(x, B) && NoPlainBos(x, B) && NoPlainEos(x, B)
  {
    forall b | b in B ensures exists a :: a in A && a.kind == b.kind && a.co == b.co {
      assert (b.kind, b.co) in Labels(B);
      var a :| a in A && (a.kind, a.co) == (b.kind, b.co);
    }
  }

  ghost predicate NoEmpty(A: set<Arc>) { forall a :: a in A ==> a.kind != Empty }

  ghost predicate NoPlainBos(x: Frame, A: set<Arc>) {
    forall a :: a in A && a.kind == Plain ==> a.co != x.bos0 && a.co != x.bos1
  }

  ghost predicate NoPlainEos(x: Frame, A: set<Arc>) {
    forall a :: a in A && a.kind == Plain ==> a.co != x.eos0 && a.co != x.eos1
  }

  /** What holds whenever a back constraint is pulled. */
  ghost predicate Pullable(x: Frame, A: set<Arc>) {
    x.Distinct() && Shaped(x, A) && Legal(x, A) && NoEmpty(A) && NoPlainBos(x, A)
  }

  /** What holds whenever a forward constraint is pushed. */
  ghost predicate Pushable(x: Frame, A: set<Arc>) {
    x.Distinct() && Shaped(x, A) && Legal(x, A) && NoEmpty(A) && NoPlainEos(x, A)
  }

  // ----- a back constraint after an arc

  ghost predicate PullPair(x: Frame, a: Arc, con: Arc) {
    Pullable(x, {a, con}) && (con.kind == Begin || con.kind == Behind) && a.to == con.from && con.from != x.pre
  }

  lemma PullVerdict(x: Frame, a: Arc, con: Arc)
    requires PullPair(x, a, con)
    ensures Combine(con, a) == Incompatible ==> NeverBoth(x, a, con)
    ensures Combine(con, a) == Satisfied ==> Joins(x, a, con, a.(to := con.to))
  {
    assert a in {a, con} && con in {a, con};
  }

  /** The two constraints pass each other through a fresh state. */
  lemma PullSwap(x: Frame, a: Arc, con: Arc, z: nat)
    requires PullPair(x, a, con) && Combine(con, a) == Compatible
    requires z != x.pre && z != x.post
    ensures Stands(x, a, con, con.(from := a.from, to := z), a.(from := z, to := con.to))
  {
    assert a in {a, con} && con in {a, con};
  }

  // ----- a forward constraint before an arc

  ghost predicate PushPair(x: Frame, con: Arc, a: Arc) {
    Pushable(x, {a, con}) && (con.kind == End || con.kind == Ahead) && con.to == a.from && con.to != x.post
  }

  lemma PushVerdict(x: Frame, con: Arc, a: Arc)
    requires PushPair(x, con, a)
    ensures Combine(con, a) == Incompatible ==> NeverBoth(x, con, a)
    ensures Combine(con, a) == Satisfied ==> Joins(x, con, a, a.(from := con.from))
  {
    assert a in {a, con} && con in {a, con};
  }

  lemma PushSwap(x: Frame, con: Arc, a: Arc, z: nat)
    requires PushPair(x, con, a) && Combine(con, a) == Compatible
    requires z != x.pre && z != x.post
    ensures Stands(x, con, a, a.(from := con.from, to := z), con.(from := z, to := a.to))
  {
    assert a in {a, con} && con in {a, con};
  }

  // ----- whole steps on the arc set

  /** Every remaining arc into `con`'s source absorbs the constraint. */
  function Absorbed(A: set<Arc>, con: Arc): set<Arc> {
    CopiedIns(A, con.from, con.to) - InArcs(A, con.from) - {con}
  }

  lemma AbsorbKeeps(x: Frame, A: set<Arc>, con: Arc)
    requires con.from != con.to && con.from != x.pre && con.from != x.post
    requires OutArcs(A, con.from) == {con}
    requires forall a :: a in InArcs(A, con.from) ==> Joins(x, a, con, a.(to := con.to))
    ensures SameLanguage(x, A, Absorbed(A, con))
  {
    var f, B := con.from, CopiedIns(A, con.from, con.to);
    assert con in OutArcs(A, f);
    AddShortcuts(x, A, B);
    forall a | a in B && a.to == f ensures Covered(x, B - {con}, a, con) {
      assert a in InArcs(A, f) && (a.from == f ==> a in OutArcs(A, f));
      assert a.(to := con.to) in B - {con};
    }
    RemoveOut(x, B, con);
    forall a | a in B - {con} ensures a.from != f {
      assert a.from == f && a in A ==> a in OutArcs(A, f);
      assert forall b :: b in InArcs(A, f) && b.from == f ==> b in OutArcs(A, f);
    }
    assert OutArcs(B - {con}, f) == {};
    assert Absorbed(A, con) == B - {con} - InArcs(A, f);
    DropDeadEnd(x, B - {con}, Absorbed(A, con), f);
    SameLanguageTransitive(x, A, B, B - {con});
    SameLanguageTransitive(x, A, B - {con}, Absorbed(A, con));
  }

  /** Every remaining arc out of `con`'s target absorbs the constraint. */
  function AbsorbedOut(A: set<Arc>, con: Arc): set<Arc> {
    CopiedOuts(A, con.to, con.from) - OutArcs(A, con.to) - {con}
  }

  lemma AbsorbOutKeeps(x: Frame, A: set<Arc>, con: Arc)
    requires con.from != con.to && con.to != x.pre && con.to != x.post
    requires InArcs(A, con.to) == {con}
    requires forall a :: a in OutArcs(A, con.to) ==> Joins(x, con, a, a.(from := con.from))
    ensures SameLanguage(x, A, AbsorbedOut(A, con))
  {
    var t, B := con.to, CopiedOuts(A, con.to, con.from);
    assert con in InArcs(A, t);
    AddShortcuts(x, A, B);
    forall a | a in B && a.from == t ensures Covered(x, B - {con}, con, a) {
      assert a in OutArcs(A, t) && (a.to == t ==> a in InArcs(A, t));
      assert a.(from := con.from) in B - {con};
    }
    RemoveIn(x, B, con);
    forall a | a in B - {con} ensures a.to != t {
      assert a.to == t && a in A ==> a in InArcs(A, t);
      assert forall b :: b in OutArcs(A, t) && b.to == t ==> b in InArcs(A, t);
    }
    assert InArcs(B - {con}, t) == {};
    assert AbsorbedOut(A, con) == B - {con} - OutArcs(A, t);
    DropUnreached(x, B - {con}, AbsorbedOut(A, con), t);
    SameLanguageTransitive(x, A, B, B - {con});
    SameLanguageTransitive(x, A, B - {con}, AbsorbedOut(A, con));
  }

  lemma PullOneIncompatible(x: Frame, A: set<Arc>, con: Arc, a: Arc)
    requires Pullable(x, A) && OutArcs(A, con.from) == {con} && a in InArcs(A, con.from)
    requires con.from != con.to && con.from != x.pre && con.from != x.post && (con.kind == Begin || con.kind == Behind)
    requires Combine(con, a) == Incompatible
    ensures SameLanguage(x, A, A - {a})
  {
    assert con in OutArcs(A, con.from);
    PullVerdict(x, a, con);
    assert a.from == con.from ==> a in OutArcs(A, con.from);
    forall b | b in A && b.from == a.to ensures Covered(x, A - {a}, a, b) {
      assert b in OutArcs(A, con.from);
    }
    RemoveIn(x, A, a);
  }

  function Passed(A: set<Arc>, gone: Arc, p: Arc, q: Arc): set<Arc> { A + {p, q} - {gone} }

  lemma PullOneCompatible(x: Frame, A: set<Arc>, con: Arc, a: Arc, z: nat)
    requires Pullable(x, A) && OutArcs(A, con.from) == {con} && a in InArcs(A, con.from)
    requires con.from != con.to && con.from != x.pre && con.from != x.post && (con.kind == Begin || con.kind == Behind)
    requires Combine(con, a) == Compatible
    requires Untouched(A, z) && z != x.pre && z != x.post
    ensures SameLanguage(x, A, Passed(A, a, con.(from := a.from, to := z), a.(from := z, to := con.to)))
    ensures Pullable(x, Passed(A, a, con.(from := a.from, to := z), a.(from := z, to := con.to)))
  {
    assert con in OutArcs(A, con.from);
    PullSwap(x, a, con, z);
    var p, q := con.(from := a.from, to := z), a.(from := z, to := con.to);
    AddDetour(x, A, a, con, p, q);
    assert a.from == con.from ==> a in OutArcs(A, con.from);
    forall b | b in A + {p, q} && b.from == a.to ensures Covered(x, A + {p, q} - {a}, a, b) {
      assert b in OutArcs(A, con.from);
      assert p in A + {p, q} - {a} && q in A + {p, q} - {a};
    }
    RemoveIn(x, A + {p, q}, a);
    SameLanguageTransitive(x, A, A + {p, q}, A + {p, q} - {a});
  }

  lemma PushOneIncompatible(x: Frame, A: set<Arc>, con: Arc, a: Arc)
    requires Pushable(x, A) && InArcs(A, con.to) == {con} && a in OutArcs(A, con.to)
    requires con.from != con.to && con.to != x.pre && con.to != x.post && (con.kind == End || con.kind == Ahead)
    requires Combine(con, a) == Incompatible
    ensures SameLanguage(x, A, A - {a})
  {
    assert con in InArcs(A, con.to);
    PushVerdict(x, con, a);
    assert a.to == con.to ==> a in InArcs(A, con.to);
    forall b | b in A && b.to == a.from ensures Covered(x, A - {a}, b, a) {
      assert b in InArcs(A, con.to);
    }
    RemoveOut(x, A, a);
  }

  lemma PushOneCompatible(x: Frame, A: set<Arc>, con: Arc, a: Arc, z: nat)
    requires Pushable(x, A) && InArcs(A, con.to) == {con} && a in OutArcs(A, con.to)
    requires con.from != con.to && con.to != x.pre && con.to != x.post && (con.kind == End || con.kind == Ahead)
    requires Combine(con, a) == Compatible
    requires Untouched(A, z) && z != x.pre && z != x.post
    ensures SameLanguage(x, A, Passed(A, a, con.(from := z, to := a.to), a.(from := con.from, to := z)))
    ensures Pushable(x, Passed(A, a, con.(from := z, to := a.to), a.(from := con.from, to := z)))
  {
    assert con in InArcs(A, con.to);
    PushSwap(x, con, a, z);
    var p, q := a.(from := con.from, to := z), con.(from := z, to := a.to);
    AddDetour(x, A, con, a, p, q);
    assert a.to == con.to ==> a in InArcs(A, con.to);
    forall b | b in A + {p, q} && b.to == a.from ensures Covered(x, A + {p, q} - {a}, b, a) {
      assert b in InArcs(A, con.to);
      assert p in A + {p, q} - {a} && q in A + {p, q} - {a};
    }
    RemoveOut(x, A + {p, q}, a);
    assert A + {p, q} - {a} == Passed(A, a, q, p);
    SameLanguageTransitive(x, A, A + {p, q}, A + {p, q} - {a});
  }

  // ----- the in-place operations

  /** Delete the constraints that lead from `s` back to `s`. */
  method DropCircular(nfa: Nfa, s: nat)
    requires nfa.Valid() && s in nfa.states && !nfa.Flagged(s)
    modifies nfa`arcs
    ensures nfa.Valid() && SameLanguage(nfa.Ctx(), old(nfa.arcs), nfa.arcs)
    ensures nfa.arcs <= old(nfa.arcs)
    ensures forall a :: a in old(nfa.arcs) - nfa.arcs ==> a.from == a.to == s && Constraint(a.kind)
    ensures forall a :: a in nfa.arcs && a.from == a.to == s ==> !Constraint(a.kind)
  {
    ghost var A := nfa.arcs;
    var loops := set a | a in nfa.arcs && a.from == s && a.to == s && Constraint(a.kind);
    while loops != {}
      invariant nfa.Valid() && SameLanguage(nfa.Ctx(), A, nfa.arcs) && nfa.arcs <= A && loops <= nfa.arcs
      invariant forall a :: a in loops ==> a.from == a.to == s && Constraint(a.kind)
      invariant forall a :: a in A - nfa.arcs ==> a.from == a.to == s && Constraint(a.kind)
      invariant forall a :: a in nfa.arcs && a.from == a.to == s && Constraint(a.kind) ==> a in loops
      decreases loops
    {
      var a :| a in loops;
      DropIdle(nfa.Ctx(), nfa.arcs, a);
      SameLanguageTransitive(nfa.Ctx(), A, nfa.arcs, nfa.arcs - {a});
      nfa.FreeArc(a);
      loops := loops - {a};
    }
  }

  /** Arcs that were not there join states of which one was not there. */
  ghost predicate NewAtNew(A: set<Arc>, B: set<Arc>, fresh_: nat) {
    forall b :: b in B && b !in A ==> b.from >= fresh_ || b.to >= fresh_
  }

  /** Give `con` a source state of its own if other arcs leave its source. */
  method IsolateSource(nfa: Nfa, con: Arc) returns (alone: Arc)
    requires nfa.Valid() && con in nfa.arcs && con.from != con.to && !nfa.Flagged(con.from)
    requires Pullable(nfa.Ctx(), nfa.arcs) && (con.kind == Begin || con.kind == Behind)
    modifies nfa`states, nfa`arcs, nfa`fresh_, nfa`no, nfa`nstates
    ensures nfa.Valid() && Pullable(nfa.Ctx(), nfa.arcs)
    ensures SameLanguage(nfa.Ctx(), old(nfa.arcs), nfa.arcs) && Labels(nfa.arcs) <= Labels(old(nfa.arcs))
    ensures alone in nfa.arcs && alone == con.(from := alone.from)
    ensures alone.from != alone.to && !nfa.Flagged(alone.from) && alone.from in nfa.states
    ensures OutArcs(nfa.arcs, alone.from) == {alone}
    ensures (alone == con || con !in nfa.arcs) && old(nfa.fresh_) <= nfa.fresh_
    ensures alone != con ==> forall a :: a in InArcs(nfa.arcs, alone.from) ==> a.(to := con.from) in old(nfa.arcs)
    ensures Isolates(old(nfa.arcs), nfa.arcs, alone)
  {
    ghost var x, A := nfa.Ctx(), nfa.arcs;
    alone := con;
    var outs := OutArcs(nfa.arcs, con.from);
    assert con in outs;
    if outs != {con} {
      var s := nfa.NewState();
      nfa.CopyIns(con.from, s);
      nfa.CopyArc(con, s, con.to);
      nfa.FreeArc(con);
      alone := con.(from := s);
      CloneFromKeeps(x, A, con, s);
      IsolatesByClone(A, con, s);
      assert nfa.arcs == CloneFrom(A, con, s);
      assert OutArcs(nfa.arcs, s) == {alone};
    } else {
      IsolatesItself(A, con);
    }
  }

  /** `con` lands on one arc into its source. */
  method LandBack(nfa: Nfa, con: Arc, a: Arc)
    requires nfa.Valid() && con in nfa.arcs && con.from != con.to && !nfa.Flagged(con.from)
    requires Pullable(nfa.Ctx(), nfa.arcs) && (con.kind == Begin || con.kind == Behind)
    requires OutArcs(nfa.arcs, con.from) == {con} && a in InArcs(nfa.arcs, con.from)
    modifies nfa`states, nfa`arcs, nfa`fresh_, nfa`no, nfa`nstates
    ensures nfa.Valid() && Pullable(nfa.Ctx(), nfa.arcs)
    ensures SameLanguage(nfa.Ctx(), old(nfa.arcs), nfa.arcs) && Labels(nfa.arcs) <= Labels(old(nfa.arcs))
    ensures OutArcs(nfa.arcs, con.from) == {con}
    ensures InArcs(nfa.arcs, con.from) == InArcs(old(nfa.arcs), con.from) - (if Combine(con, a) == Satisfied then {} else {a})
    ensures StaysLoaded(old(nfa.arcs), nfa.arcs, con.from)
    ensures NewAtNew(old(nfa.arcs), nfa.arcs, old(nfa.fresh_)) && old(nfa.fresh_) <= nfa.fresh_
  {
    ghost var x, A := nfa.Ctx(), nfa.arcs;
    assert a.from == con.from ==> a in OutArcs(A, con.from);
    match Combine(con, a) {
      case Incompatible =>
        PullOneIncompatible(x, A, con, a);
        StaysWithout(A, a, con.from);
        nfa.FreeArc(a);
      case Satisfied =>
        StaysByItself(A, con.from);
      case Compatible =>
        var s := nfa.NewState();
        PullOneCompatible(x, A, con, a, s);
        StaysByPassing(A, con, a, s);
        nfa.CopyArc(a, s, con.to);
        nfa.CopyArc(con, a.from, s);
        nfa.FreeArc(a);
        assert nfa.arcs == Passed(A, a, con.(from := a.from, to := s), a.(from := s, to := con.to));
    }
  }

  /** Move `con` past each arc into its source, or delete the arc, or leave it if
      it satisfies `con`. */
  method PropagateBack(nfa: Nfa, con: Arc)
    requires nfa.Valid() && con in nfa.arcs && con.from != con.to && !nfa.Flagged(con.from)
    requires Pullable(nfa.Ctx(), nfa.arcs) && (con.kind == Begin || con.kind == Behind)
    requires OutArcs(nfa.arcs, con.from) == {con}
    modifies nfa`states, nfa`arcs, nfa`fresh_, nfa`no, nfa`nstates
    ensures nfa.Valid() && Pullable(nfa.Ctx(), nfa.arcs)
    ensures SameLanguage(nfa.Ctx(), old(nfa.arcs), nfa.arcs) && Labels(nfa.arcs) <= Labels(old(nfa.arcs))
    ensures OutArcs(nfa.arcs, con.from) == {con}
    ensures forall a :: a in InArcs(nfa.arcs, con.from) ==> Combine(con, a) == Satisfied
    ensures NewAtNew(old(nfa.arcs), nfa.arcs, old(nfa.fresh_)) && InArcs(nfa.arcs, con.from) <= InArcs(old(nfa.arcs), con.from)
    ensures con in nfa.arcs && StaysLoaded(old(nfa.arcs), nfa.arcs, con.from)
  {
    ghost var x, A, f := nfa.Ctx(), nfa.arcs, nfa.fresh_;
    var ins := InArcs(nfa.arcs, con.from);
    StaysByItself(A, con.from);
    while ins != {}
      invariant nfa.Valid() && Pullable(x, nfa.arcs)
      invariant SameLanguage(x, A, nfa.arcs) && Labels(nfa.arcs) <= Labels(A)
      invariant OutArcs(nfa.arcs, con.from) == {con} && ins <= InArcs(nfa.arcs, con.from)
      invariant forall a :: a in InArcs(nfa.arcs, con.from) - ins ==> Combine(con, a) == Satisfied
      invariant NewAtNew(A, nfa.arcs, f) && f <= nfa.fresh_ && InArcs(nfa.arcs, con.from) <= InArcs(A, con.from)
      invariant StaysLoaded(A, nfa.arcs, con.from)
      decreases ins
    {
      var a :| a in ins;
      ghost var B := nfa.arcs;
      assert con in OutArcs(B, con.from);
      LandBack(nfa, con, a);
      SameLanguageTransitive(x, A, B, nfa.arcs);
      StaysTransitive(A, B, nfa.arcs, con.from);
      ins := ins - {a};
    }
    assert con in OutArcs(nfa.arcs, con.from);
  }

  /** Pull a back constraint backward past its source state; refused only at pre
      (and post). */
  method Pull(nfa: Nfa, con: Arc) returns (done: bool)
    requires nfa.Valid() && con in nfa.arcs
    requires Pullable(nfa.Ctx(), nfa.arcs) && (con.kind == Begin || con.kind == Behind)
    modifies nfa`states, nfa`arcs, nfa`fresh_, nfa`no, nfa`nstates
    ensures nfa.Valid() && Pullable(nfa.Ctx(), nfa.arcs)
    ensures SameLanguage(nfa.Ctx(), old(nfa.arcs), nfa.arcs) && Labels(nfa.arcs) <= Labels(old(nfa.arcs))
    ensures done <==> !nfa.Flagged(con.from) || con.from == con.to
    ensures if done then con !in nfa.arcs && Lowers(old(nfa.arcs), nfa.arcs) else nfa.arcs == old(nfa.arcs)
  {
    ghost var x, A := nfa.Ctx(), nfa.arcs;
    LowersByLoss(A, con);
    if con.from == con.to {
      DropIdle(x, A, con);
      nfa.FreeArc(con);
      return true;
    }
    if nfa.Flagged(con.from) {
      return false;
    }
    if InArcs(nfa.arcs, con.from) == {} {
      DropUnreached(x, A, A - {con}, con.from);
      nfa.FreeArc(con);
      return true;
    }
    DropCircular(nfa, con.from);
    ghost var B := nfa.arcs;
    var c := IsolateSource(nfa, con);
    ghost var C, f := nfa.arcs, nfa.fresh_;
    ghost var D := PullAlone(nfa, c);
    PulledIsGone(B, C, D, con, c, f);
    LowersBySteps(A, B, C, nfa.arcs, c);
    SameLanguageTransitive(x, A, B, C);
    SameLanguageTransitive(x, A, C, nfa.arcs);
    return true;
  }

  /** Pull `c`, which has its source to itself: past or onto the arcs into it, whose rest
      takes its place. */
  method PullAlone(nfa: Nfa, c: Arc) returns (ghost D: set<Arc>)
    requires nfa.Valid() && c in nfa.arcs && c.from != c.to && !nfa.Flagged(c.from)
    requires Pullable(nfa.Ctx(), nfa.arcs) && (c.kind == Begin || c.kind == Behind)
    requires OutArcs(nfa.arcs, c.from) == {c}
    modifies nfa`states, nfa`arcs, nfa`fresh_, nfa`no, nfa`nstates
    ensures nfa.Valid() && Pullable(nfa.Ctx(), nfa.arcs)
    ensures SameLanguage(nfa.Ctx(), old(nfa.arcs), nfa.arcs) && Labels(nfa.arcs) <= Labels(old(nfa.arcs))
    ensures nfa.arcs == Absorbed(D, c)
    ensures NewAtNew(old(nfa.arcs), D, old(nfa.fresh_)) && InArcs(D, c.from) <= InArcs(old(nfa.arcs), c.from)
    ensures Relieves(old(nfa.arcs), nfa.arcs, c.from)
  {
    ghost var x, C := nfa.Ctx(), nfa.arcs;
    PropagateBack(nfa, c);
    D := nfa.arcs;
    RelievesByAbsorbing(C, D, c);
    AbsorbPull(x, D, c);
    assert c in OutArcs(D, c.from);
    assert forall a :: a in InArcs(D, c.from) && a.from == c.from ==> a in OutArcs(D, c.from);
    nfa.MoveIns(c.from, c.to);
    assert InArcs(nfa.arcs, c.from) == {} && OutArcs(nfa.arcs, c.from) == {c};
    nfa.DropState(c.from);
    assert nfa.arcs == Absorbed(D, c);
    SameLanguageTransitive(x, C, D, nfa.arcs);
  }

  /** Nothing that `con` leaves behind is `con` itself. */
  lemma PulledIsGone(B: set<Arc>, C: set<Arc>, D: set<Arc>, con: Arc, c: Arc, fresh_: nat)
    requires c == con.(from := c.from) && c.from != c.to && Constraint(con.kind) && con.from != con.to
    requires forall a :: a in B && a.from == a.to == con.from ==> !Constraint(a.kind)
    requires c != con ==> con !in C && forall a :: a in InArcs(C, c.from) ==> a.(to := con.from) in B
    requires NewAtNew(C, D, fresh_) && InArcs(D, c.from) <= InArcs(C, c.from) && con.from < fresh_ && con.to < fresh_
    ensures con !in Absorbed(D, c)
  {
    if c != con {
      forall a | a in InArcs(D, c.from) ensures a.(to := c.to) != con {
        assert a.(to := con.from) in B;
      }
    }
  }

  lemma AbsorbPull(x: Frame, A: set<Arc>, con: Arc)
    requires Pullable(x, A) && OutArcs(A, con.from) == {con} && (con.kind == Begin || con.kind == Behind)
    requires con.from != con.to && con.from != x.pre && con.from != x.post
    requires forall a :: a in InArcs(A, con.from) ==> Combine(con, a) == Satisfied
    ensures SameLanguage(x, A, Absorbed(A, con)) && Pullable(x, Absorbed(A, con)) && Labels(Absorbed(A, con)) <= Labels(A)
  {
    assert con in OutArcs(A, con.from);
    forall a | a in InArcs(A, con.from) ensures Joins(x, a, con, a.(to := con.to)) {
      PullVerdict(x, a, con);
    }
    AbsorbKeeps(x, A, con);
  }

  /** Give `con` a target state of its own if other arcs enter its target. */
  method IsolateTarget(nfa: Nfa, con: Arc) returns (alone: Arc)
    requires nfa.Valid() && con in nfa.arcs && con.from != con.to && !nfa.Flagged(con.to)
    requires Pushable(nfa.Ctx(), nfa.arcs) && (con.kind == End || con.kind == Ahead)
    modifies nfa`states, nfa`arcs, nfa`fresh_, nfa`no, nfa`nstates
    ensures nfa.Valid() && Pushable(nfa.Ctx(), nfa.arcs)
    ensures SameLanguage(nfa.Ctx(), old(nfa.arcs), nfa.arcs) && Labels(nfa.arcs) <= Labels(old(nfa.arcs))
    ensures alone in nfa.arcs && alone == con.(to := alone.to)
    ensures alone.from != alone.to && !nfa.Flagged(alone.to) && alone.to in nfa.states
    ensures InArcs(nfa.arcs, alone.to) == {alone}
    ensures (alone == con || con !in nfa.arcs) && old(nfa.fresh_) <= nfa.fresh_
    ensures alone != con ==> forall a :: a in OutArcs(nfa.arcs, alone.to) ==> a.(from := con.to) in old(nfa.arcs)
    ensures IsolatesForth(old(nfa.arcs), nfa.arcs, alone)
  {
    ghost var x, A := nfa.Ctx(), nfa.arcs;
    alone := con;
    var ins := InArcs(nfa.arcs, con.to);
    assert con in ins;
    if ins != {con} {
      var s := nfa.NewState();
      nfa.CopyOuts(con.to, s);
      nfa.CopyArc(con, con.from, s);
      nfa.FreeArc(con);
      alone := con.(to := s);
      CloneToKeeps(x, A, con, s);
      IsolatesForthByClone(A, con, s);
      assert nfa.arcs == CloneTo(A, con, s);
      assert InArcs(nfa.arcs, s) == {alone};
    } else {
      IsolatesItself(Mirror(A), Flip(con));
    }
  }

  /** `con` lands on one arc out of its target. */
  method LandForward(nfa: Nfa, con: Arc, a: Arc)
    requires nfa.Valid() && con in nfa.arcs && con.from != con.to && !nfa.Flagged(con.to)
    requires Pushable(nfa.Ctx(), nfa.arcs) && (con.kind == End || con.kind == Ahead)
    requires InArcs(nfa.arcs, con.to) == {con} && a in OutArcs(nfa.arcs, con.to)
    modifies nfa`states, nfa`arcs, nfa`fresh_, nfa`no, nfa`nstates
    ensures nfa.Valid() && Pushable(nfa.Ctx(), nfa.arcs)
    ensures SameLanguage(nfa.Ctx(), old(nfa.arcs), nfa.arcs) && Labels(nfa.arcs) <= Labels(old(nfa.arcs))
    ensures InArcs(nfa.arcs, con.to) == {con}
    ensures OutArcs(nfa.arcs, con.to) == OutArcs(old(nfa.arcs), con.to) - (if Combine(con, a) == Satisfied then {} else {a})
    ensures StaysLoadedForth(old(nfa.arcs), nfa.arcs, con.to)
    ensures NewAtNew(old(nfa.arcs), nfa.arcs, old(nfa.fresh_)) && old(nfa.fresh_) <= nfa.fresh_
  {
    ghost var x, A := nfa.Ctx(), nfa.arcs;
    assert a.to == con.to ==> a in InArcs(A, con.to);
    match Combine(con, a) {
      case Incompatible =>
        PushOneIncompatible(x, A, con, a);
        StaysForthWithout(A, a, con.to);
        nfa.FreeArc(a);
      case Satisfied =>
        StaysByItself(Mirror(A), con.to);
      case Compatible =>
        var s := nfa.NewState();
        PushOneCompatible(x, A, con, a, s);
        StaysForthByPassing(A, con, a, s);
        nfa.CopyArc(con, s, a.to);
        nfa.CopyArc(a, con.from, s);
        nfa.FreeArc(a);
        assert nfa.arcs == Passed(A, a, con.(from := s, to := a.to), a.(from := con.from, to := s));
    }
  }

  /** Move `con` past each arc out of its target, or delete the arc, or leave it if
      it satisfies `con`. */
  method PropagateForward(nfa: Nfa, con: Arc)
    requires nfa.Valid() && con in nfa.arcs && con.from != con.to && !nfa.Flagged(con.to)
    requires Pushable(nfa.Ctx(), nfa.arcs) && (con.kind == End || con.kind == Ahead)
    requires InArcs(nfa.arcs, con.to) == {con}
    modifies nfa`states, nfa`arcs, nfa`fresh_, nfa`no, nfa`nstates
    ensures nfa.Valid() && Pushable(nfa.Ctx(), nfa.arcs) && con in nfa.arcs && con.to in nfa.states
    ensures SameLanguage(nfa.Ctx(), old(nfa.arcs), nfa.arcs) && Labels(nfa.arcs) <= Labels(old(nfa.arcs))
    ensures InArcs(nfa.arcs, con.to) == {con}
    ensures forall a :: a in OutArcs(nfa.arcs, con.to) ==> Combine(con, a) == Satisfied
    ensures NewAtNew(old(nfa.arcs), nfa.arcs, old(nfa.fresh_)) && OutArcs(nfa.arcs, con.to) <= OutArcs(old(nfa.arcs), con.to)
    ensures StaysLoadedForth(old(nfa.arcs), nfa.arcs, con.to)
  {
    ghost var x, A, f := nfa.Ctx(), nfa.arcs, nfa.fresh_;
    var outs := OutArcs(nfa.arcs, con.to);
    StaysByItself(Mirror(A), con.to);
    while outs != {}
      invariant nfa.Valid() && Pushable(x, nfa.arcs)
      invariant SameLanguage(x, A, nfa.arcs) && Labels(nfa.arcs) <= Labels(A)
      invariant InArcs(nfa.arcs, con.to) == {con} && outs <= OutArcs(nfa.arcs, con.to)
      invariant forall a :: a in OutArcs(nfa.arcs, con.to) - outs ==> Combine(con, a) == Satisfied
      invariant NewAtNew(A, nfa.arcs, f) && f <= nfa.fresh_ && OutArcs(nfa.arcs, con.to) <= OutArcs(A, con.to)
      invariant StaysLoadedForth(A, nfa.arcs, con.to)
      decreases outs
    {
      var a :| a in outs;
      ghost var B := nfa.arcs;
      assert con in InArcs(B, con.to);
      LandForward(nfa, con, a);
      SameLanguageTransitive(x, A, B, nfa.arcs);
      StaysTransitive(Mirror(A), Mirror(B), Mirror(nfa.arcs), con.to);
      outs := outs - {a};
    }
    assert con in InArcs(nfa.arcs, con.to);
  }

  lemma PushedIsGone(B: set<Arc>, C: set<Arc>, D: set<Arc>, con: Arc, c: Arc, fresh_: nat)
    requires c == con.(to := c.to) && c.from != c.to && Constraint(con.kind) && con.from != con.to
    requires forall a :: a in B && a.from == a.to == con.to ==> !Constraint(a.kind)
    requires c != con ==> con !in C && forall a :: a in OutArcs(C, c.to) ==> a.(from := con.to) in B
    requires NewAtNew(C, D, fresh_) && OutArcs(D, c.to) <= OutArcs(C, c.to) && con.from < fresh_ && con.to < fresh_
    ensures con !in AbsorbedOut(D, c)
  {
    if c != con {
      forall a | a in OutArcs(D, c.to) ensures a.(from := c.from) != con {
        assert a.(from := con.to) in B;
      }
    }
  }

  lemma AbsorbPush(x: Frame, A: set<Arc>, con: Arc)
    requires Pushable(x, A) && InArcs(A, con.to) == {con} && (con.kind == End || con.kind == Ahead)
    requires con.from != con.to && con.to != x.pre && con.to != x.post
    requires forall a :: a in OutArcs(A, con.to) ==> Combine(con, a) == Satisfied
    ensures SameLanguage(x, A, AbsorbedOut(A, con)) && Pushable(x, AbsorbedOut(A, con)) && Labels(AbsorbedOut(A, con)) <= Labels(A)
  {
    assert con in InArcs(A, con.to);
    forall a | a in OutArcs(A, con.to) ensures Joins(x, con, a, a.(from := con.from)) {
      PushVerdict(x, con, a);
    }
    AbsorbOutKeeps(x, A, con);
  }

  /** Push a forward constraint forward past its target state; refused only at post
      (and pre). */
  method Push(nfa: Nfa, con: Arc) returns (done: bool)
    requires nfa.Valid() && con in nfa.arcs
    requires Pushable(nfa.Ctx(), nfa.arcs) && (con.kind == End || con.kind == Ahead)
    modifies nfa`states, nfa`arcs, nfa`fresh_, nfa`no, nfa`nstates
    ensures nfa.Valid() && Pushable(nfa.Ctx(), nfa.arcs)
    ensures SameLanguage(nfa.Ctx(), old(nfa.arcs), nfa.arcs) && Labels(nfa.arcs) <= Labels(old(nfa.arcs))
    ensures done <==> !nfa.Flagged(con.to) || con.from == con.to
    ensures if done then con !in nfa.arcs && LowersForth(old(nfa.arcs), nfa.arcs) else nfa.arcs == old(nfa.arcs)
  {
    ghost var x, A := nfa.Ctx(), nfa.arcs;
    LowersForthByLoss(A, con);
    if con.from == con.to {
      DropIdle(x, A, con);
      nfa.FreeArc(con);
      return true;
    }
    if nfa.Flagged(con.to) {
      return false;
    }
    if OutArcs(nfa.arcs, con.to) == {} {
      DropDeadEnd(x, A, A - {con}, con.to);
      nfa.FreeArc(con);
      return true;
    }
    DropCircular(nfa, con.to);
    ghost var B := nfa.arcs;
    var c := IsolateTarget(nfa, con);
    ghost var C, f := nfa.arcs, nfa.fresh_;
    ghost var D := PushAlone(nfa, c);
    PushedIsGone(B, C, D, con, c, f);
    LowersForthBySteps(A, B, C, nfa.arcs, c);
    SameLanguageTransitive(x, A, B, C);
    SameLanguageTransitive(x, A, C, nfa.arcs);
    return true;
  }

  /** Push `c`, which has its target to itself: past or onto the arcs out of it, whose rest
      takes its place. */
  method PushAlone(nfa: Nfa, c: Arc) returns (ghost D: set<Arc>)
    requires nfa.Valid() && c in nfa.arcs && c.from != c.to && !nfa.Flagged(c.to)
    requires Pushable(nfa.Ctx(), nfa.arcs) && (c.kind == End || c.kind == Ahead)
    requires InArcs(nfa.arcs, c.to) == {c}
    modifies nfa`states, nfa`arcs, nfa`fresh_, nfa`no, nfa`nstates
    ensures nfa.Valid() && Pushable(nfa.Ctx(), nfa.arcs)
    ensures SameLanguage(nfa.Ctx(), old(nfa.arcs), nfa.arcs) && Labels(nfa.arcs) <= Labels(old(nfa.arcs))
    ensures nfa.arcs == AbsorbedOut(D, c)
    ensures NewAtNew(old(nfa.arcs), D, old(nfa.fresh_)) && OutArcs(D, c.to) <= OutArcs(old(nfa.arcs), c.to)
    ensures RelievesForth(old(nfa.arcs), nfa.arcs, c.to)
  {
    ghost var x, C := nfa.Ctx(), nfa.arcs;
    PropagateForward(nfa, c);
    D := nfa.arcs;
    RelievesForthByAbsorbing(C, D, c);
    AbsorbPush(x, D, c);
    assert c in InArcs(D, c.to);
    assert forall a :: a in OutArcs(D, c.to) && a.to == c.to ==> a in InArcs(D, c.to);
    nfa.MoveOuts(c.to, c.from);
    assert OutArcs(nfa.arcs, c.to) == {} && InArcs(nfa.arcs, c.to) == {c};
    nfa.DropState(c.to);
    assert nfa.arcs == AbsorbedOut(D, c);
    SameLanguageTransitive(x, C, D, nfa.arcs);
  }
}

/** Eliminating EMPTY arcs. */
module Empties {
  import opened Automaton
  import opened Surgery
  import opened NfaModel
  import opened EmptyWords

  lemma EmptyJoins(x: Frame, e: Arc, a: Arc)
    requires e.kind == Empty
    requires e.from != x.pre && e.to != x.post
    ensures a.to == e.from && a.to != x.post ==> Joins(x, a, e, a.(to := e.to))
    ensures a.from == e.to && a.from != x.pre ==> Joins(x, e, a, a.(from := e.from))
  {
  }

  /** Working on the source: `e` gives way to copies of the arcs into its source.
      (An EMPTY loop there is copied onto `e` itself, which then stays.) */
  lemma FromSide(x: Frame, A: set<Arc>, e: Arc)
    requires e in A && e.kind == Empty && e.from != e.to && Shaped(x, A)
    ensures SameLanguage(x, A, CopiedIns(A - {e}, e.from, e.to))
  {
    var B := CopiedIns(A, e.from, e.to);
    forall a | a in InArcs(A, e.from) ensures Joins(x, a, e, a.(to := e.to)) { EmptyJoins(x, e, a); }
    AddShortcuts(x, A, B);
    if e.(to := e.from) in A {
      assert CopiedIns(A - {e}, e.from, e.to) == B;
      return;
    }
    forall a | a in B && a.to == e.from ensures Covered(x, B - {e}, a, e) {
      assert a in InArcs(A, e.from) && a.(to := e.to) in B - {e};
    }
    RemoveOut(x, B, e);
    assert B - {e} == CopiedIns(A - {e}, e.from, e.to);
    SameLanguageTransitive(x, A, B, B - {e});
  }

  /** Working on the target: `e` gives way to copies of the arcs out of its target. */
  lemma ToSide(x: Frame, A: set<Arc>, e: Arc)
    requires e in A && e.kind == Empty && e.from != e.to && Shaped(x, A)
    ensures SameLanguage(x, A, CopiedOuts(A - {e}, e.to, e.from))
  {
    var B := CopiedOuts(A, e.to, e.from);
    forall a | a in OutArcs(A, e.to) ensures Joins(x, e, a, a.(from := e.from)) { EmptyJoins(x, e, a); }
    AddShortcuts(x, A, B);
    if e.(from := e.to) in A {
      assert CopiedOuts(A - {e}, e.to, e.from) == B;
      return;
    }
    forall a | a in B && a.from == e.to ensures Covered(x, B - {e}, e, a) {
      assert a in OutArcs(A, e.to) && a.(from := e.from) in B - {e};
    }
    RemoveIn(x, B, e);
    assert B - {e} == CopiedOuts(A - {e}, e.to, e.from);
    SameLanguageTransitive(x, A, B, B - {e});
  }

  ghost predicate NoNewStates(before: seq<nat>, after: seq<nat>) { forall s :: s in after ==> s in before }

  /** What replacing `e` makes of `A`: copies, at the other end of `e`, of the arcs at
      one end. `e` itself is gone unless an EMPTY loop was copied onto it. */
  ghost predicate Replaced(A: set<Arc>, B: set<Arc>, e: Arc) {
    && (B <= CopiedIns(A - {e}, e.from, e.to) || B <= CopiedOuts(A - {e}, e.to, e.from))
    && (e in B ==> e.from != e.to && (e.(to := e.from) in A || e.(from := e.to) in A))
  }

  /** Attack the source of an EMPTY arc that has been taken out of the arcs `A`. */
  method UnemptySource(nfa: Nfa, e: Arc, ghost A: set<Arc>)
    requires nfa.Valid() && e in A && e.kind == Empty && e.from != e.to && nfa.arcs == A - {e} && Shaped(nfa.Ctx(), A)
    requires e.from in nfa.states && e.to in nfa.states
    modifies nfa`states, nfa`arcs, nfa`no
    ensures nfa.Valid() && Shaped(nfa.Ctx(), nfa.arcs) && SameLanguage(nfa.Ctx(), A, nfa.arcs)
    ensures Labels(nfa.arcs) <= Labels(A) && Replaced(A, nfa.arcs, e) && NoNewStates(old(nfa.states), nfa.states)
    ensures FromSideLeaves(A, nfa.arcs, e)
  {
    ghost var x := nfa.Ctx();
    var f, t := e.from, e.to;
    FromSide(x, A, e);
    ghost var B := CopiedIns(A - {e}, f, t);
    if OutArcs(nfa.arcs, f) == {} {
      nfa.MoveIns(f, t);
      assert OutArcs(B, f) == {};
      DropDeadEnd(x, B, nfa.arcs, f);
      SameLanguageTransitive(x, A, B, nfa.arcs);
      WithoutMembers(nfa.states, f);
      nfa.FreeState(f);
    } else {
      nfa.CopyIns(f, t);
    }
  }

  /** Attack the target of an EMPTY arc that has been taken out of the arcs `A`. */
  method UnemptyTarget(nfa: Nfa, e: Arc, ghost A: set<Arc>)
    requires nfa.Valid() && e in A && e.kind == Empty && e.from != e.to && nfa.arcs == A - {e} && Shaped(nfa.Ctx(), A)
    requires e.from in nfa.states && e.to in nfa.states
    modifies nfa`states, nfa`arcs, nfa`no
    ensures nfa.Valid() && Shaped(nfa.Ctx(), nfa.arcs) && SameLanguage(nfa.Ctx(), A, nfa.arcs)
    ensures Labels(nfa.arcs) <= Labels(A) && Replaced(A, nfa.arcs, e) && NoNewStates(old(nfa.states), nfa.states)
    ensures ToSideLeaves(A, nfa.arcs, e)
  {
    ghost var x := nfa.Ctx();
    var f, t := e.from, e.to;
    ToSide(x, A, e);
    ghost var B := CopiedOuts(A - {e}, t, f);
    if InArcs(nfa.arcs, t) == {} {
      nfa.MoveOuts(t, f);
      assert InArcs(B, t) == {};
      DropUnreached(x, B, nfa.arcs, t);
      SameLanguageTransitive(x, A, B, nfa.arcs);
      WithoutMembers(nfa.states, t);
      nfa.FreeState(t);
    } else {
      nfa.CopyOuts(t, f);
    }
  }

  /** Replace one EMPTY arc by copies of its neighbours. */
  method Unempty(nfa: Nfa, e: Arc)
    requires nfa.Valid() && e in nfa.arcs && e.kind == Empty && Shaped(nfa.Ctx(), nfa.arcs)
    modifies nfa`states, nfa`arcs, nfa`fresh_, nfa`no, nfa`nstates
    ensures nfa.Valid() && Shaped(nfa.Ctx(), nfa.arcs)
    ensures SameLanguage(nfa.Ctx(), old(nfa.arcs), nfa.arcs) && Labels(nfa.arcs) <= Labels(old(nfa.arcs))
    ensures Replaced(old(nfa.arcs), nfa.arcs, e) && NoNewStates(old(nfa.states), nfa.states)
    ensures SameWords(nfa.Ctx(), old(nfa.arcs), nfa.arcs)
  {
    ghost var x, A := nfa.Ctx(), nfa.arcs;
    if e.from == e.to {
      DropIdle(x, A, e);
      DropLoopKeepsWords(x, A, e);
      nfa.FreeArc(e);
      return;
    }
    var f, t := e.from, e.to;
    // attack the end with fewer arcs to move or copy, by default the source
    var nouts, nins := |OutArcs(nfa.arcs, f)|, |InArcs(nfa.arcs, t)|;
    var usefrom := !(nouts > nins || (nouts == nins && |InArcs(nfa.arcs, f)| > |OutArcs(nfa.arcs, t)|));
    nfa.FreeArc(e);
    if usefrom {
      UnemptySource(nfa, e, A);
    } else {
      UnemptyTarget(nfa, e, A);
    }
    UnemptyKeepsWords(x, A, nfa.arcs, e);
  }

  /** Arcs other than PLAIN ones lead up a ranking, so that they have no cycle; EMPTY ones have no colour. */
  ghost predicate Climbs(A: set<Arc>, rank: nat -> nat) {
    forall a :: a in A && a.kind != Plain ==> rank(a.from) < rank(a.to) && (a.kind == Empty ==> a.co == 0)
  }

  ghost predicate Ranked(A: set<Arc>) { exists rank: nat -> nat :: Climbs(A, rank) }

  // ----- termination when the EMPTY arcs have no cycle

  /** How many passes a loop may make. The source sets no bound; here one is left out where the loop
      is known to come to an end. */
  datatype Bound = Unbounded | AtMost(rounds: nat)

  function EmptiesOf(A: set<Arc>): set<Arc> { set a | a in A && a.kind == Empty }

  /** The EMPTY arcs lead strictly down a ranking that is at most `top`, join states
      of `S`, and carry no colour. */
  ghost predicate Acyclic(A: set<Arc>, S: set<nat>, rank: nat -> nat, top: nat) {
    forall e :: e in A && e.kind == Empty ==>
      e.co == 0 && e.from in S && e.to in S && rank(e.to) < rank(e.from) <= top
  }

  ghost function Power(b: nat, n: nat): nat { if n == 0 then 1 else Times(b, Power(b, n - 1)) }

  /** What an EMPTY arc costs: more, the lower its source or the higher its target. */
  ghost function Cost(rank: nat -> nat, top: nat, base: nat): Arc -> nat {
    (e: Arc) => Power(base, if rank(e.from) <= top then top - rank(e.from) + rank(e.to) else 0)
  }

  ghost function Total(E: set<Arc>, cost: Arc -> nat): nat
    decreases |E|
  {
    if E == {} then 0 else
      var e :| e in E;
      cost(e) + Total(E - {e}, cost)
  }

  lemma {:induction false} TotalWithout(E: set<Arc>, e: Arc, cost: Arc -> nat)
    requires e in E
    ensures Total(E, cost) == cost(e) + Total(E - {e}, cost)
    decreases |E|
  {
    var d :| d in E && Total(E, cost) == cost(d) + Total(E - {d}, cost);
    if d != e {
      TotalWithout(E - {d}, e, cost);
      TotalWithout(E - {e}, d, cost);
      assert E - {d} - {e} == E - {e} - {d};
    }
  }

  lemma {:induction false} TotalWithin(E: set<Arc>, F: set<Arc>, G: set<Arc>, cost: Arc -> nat)
    requires E <= F + G
    ensures Total(E, cost) <= Total(F, cost) + Total(G, cost)
    decreases |E|
  {
    if E != {} {
      var e :| e in E;
      TotalWithout(E, e, cost);
      if e in F {
        TotalWithout(F, e, cost);
        TotalWithin(E - {e}, F - {e}, G, cost);
      } else {
        TotalWithout(G, e, cost);
        TotalWithin(E - {e}, F, G - {e}, cost);
      }
    }
  }

  function Times(n: nat, b: nat): nat { if n == 0 then 0 else b + Times(n - 1, b) }

  lemma {:induction false} TotalAtMost(E: set<Arc>, bound: nat, cost: Arc -> nat, n: nat)
    requires |E| <= n
    requires forall e :: e in E ==> cost(e) <= bound
    ensures Total(E, cost) <= Times(n, bound)
    decreases |E|
  {
    if E != {} {
      var e :| e in E;
      TotalWithout(E, e, cost);
      TotalAtMost(E - {e}, bound, cost, n - 1);
    }
  }

  lemma {:induction false} PowerGrows(b: nat, m: nat, n: nat)
    requires b > 0 && m <= n
    ensures 0 < Power(b, m) <= Power(b, n)
    decreases n
  {
    if n > 0 {
      PowerGrows(b, if m < n then m else m - 1, n - 1);
      assert Times(b, Power(b, n - 1)) == Power(b, n - 1) + Times(b - 1, Power(b, n - 1));
      assert m == n ==> Power(b, m) == Times(b, Power(b, m - 1));
    }
  }

  /** Arcs that differ in one end only are no more than the possible ends. */
  lemma {:induction false} FewSources(N: set<Arc>, S: set<nat>)
    requires forall a :: a in N ==> a.from in S
    requires forall a, b :: a in N && b in N && a.from == b.from ==> a == b
    ensures |N| <= |S|
    decreases |N|
  {
    if N != {} {
      var a :| a in N;
      FewSources(N - {a}, S - {a.from});
    }
  }

  lemma {:induction false} FewTargets(N: set<Arc>, S: set<nat>)
    requires forall a :: a in N ==> a.to in S
    requires forall a, b :: a in N && b in N && a.to == b.to ==> a == b
    ensures |N| <= |S|
    decreases |N|
  {
    if N != {} {
      var a :| a in N;
      FewTargets(N - {a}, S - {a.to});
    }
  }

  /** An EMPTY arc that an `unempty` may add: as acyclic as the old ones, and longer
      than the one taken away. */
  ghost predicate Longer(a: Arc, e: Arc, S: set<nat>, rank: nat -> nat, top: nat) {
    && a.kind == Empty && a.co == 0 && a.from in S && a.to in S && rank(a.to) < rank(a.from) <= top
    && rank(a.to) - rank(a.from) < rank(e.to) - rank(e.from)
  }

  /** The EMPTY arcs that one `unempty` adds cost less together than the one it takes away. */
  lemma NewCostsLess(N: set<Arc>, e: Arc, S: set<nat>, rank: nat -> nat, top: nat)
    requires rank(e.to) < rank(e.from) <= top && |N| <= |S|
    requires forall a :: a in N ==> Longer(a, e, S, rank, top)
    ensures Total(N, Cost(rank, top, |S| + 1)) < Cost(rank, top, |S| + 1)(e)
  {
    var base, n := |S| + 1, top - rank(e.from) + rank(e.to);
    if N == {} {
      PowerGrows(base, n, n);
    } else {
      var a :| a in N;
      assert n > 0;
      forall a | a in N ensures Cost(rank, top, base)(a) <= Power(base, n - 1) {
        PowerGrows(base, top - rank(a.from) + rank(a.to), n - 1);
      }
      TotalAtMost(N, Power(base, n - 1), Cost(rank, top, base), |S|);
      PowerGrows(base, n - 1, n - 1);
      assert Power(base, n) == Power(base, n - 1) + Times(|S|, Power(base, n - 1));
    }
  }

  lemma AddedAtTarget(A: set<Arc>, e: Arc, S: set<nat>, rank: nat -> nat, top: nat, a: Arc)
    requires Acyclic(A, S, rank, top) && e in A && e.kind == Empty && a.kind == Empty
    requires a in CopiedIns(A - {e}, e.from, e.to) && a !in A - {e}
    ensures Longer(a, e, S, rank, top) && a.to == e.to
  {
    var b :| b in InArcs(A - {e}, e.from) && a == b.(to := e.to);
    assert b in A && b.kind == Empty;
  }

  lemma AddedAtSource(A: set<Arc>, e: Arc, S: set<nat>, rank: nat -> nat, top: nat, a: Arc)
    requires Acyclic(A, S, rank, top) && e in A && e.kind == Empty && a.kind == Empty
    requires a in CopiedOuts(A - {e}, e.to, e.from) && a !in A - {e}
    ensures Longer(a, e, S, rank, top) && a.from == e.from
  {
    var b :| b in OutArcs(A - {e}, e.to) && a == b.(from := e.from);
    assert b in A && b.kind == Empty;
  }

  lemma FewAdded(A: set<Arc>, B: set<Arc>, N: set<Arc>, e: Arc, S: set<nat>, rank: nat -> nat, top: nat)
    requires Acyclic(A, S, rank, top) && e in A && e.kind == Empty
    requires B <= CopiedIns(A - {e}, e.from, e.to) || B <= CopiedOuts(A - {e}, e.to, e.from)
    requires forall a :: a in N ==> a in B && a.kind == Empty && a !in A - {e}
    ensures |N| <= |S| && forall a :: a in N ==> Longer(a, e, S, rank, top)
  {
    if B <= CopiedIns(A - {e}, e.from, e.to) {
      forall a | a in N ensures Longer(a, e, S, rank, top) && a.to == e.to {
        AddedAtTarget(A, e, S, rank, top, a);
      }
      FewSources(N, S);
    } else {
      forall a | a in N ensures Longer(a, e, S, rank, top) && a.from == e.from {
        AddedAtSource(A, e, S, rank, top, a);
      }
      FewTargets(N, S);
    }
  }

  function Added(A: set<Arc>, B: set<Arc>, e: Arc): set<Arc> { EmptiesOf(B) - (A - {e}) }

  lemma UnemptyAcyclic(A: set<Arc>, B: set<Arc>, e: Arc, S: set<nat>, rank: nat -> nat, top: nat)
    requires Acyclic(A, S, rank, top) && e in A && e.kind == Empty
    requires B <= CopiedIns(A - {e}, e.from, e.to) || B <= CopiedOuts(A - {e}, e.to, e.from)
    ensures Acyclic(B, S, rank, top)
  {
    FewAdded(A, B, Added(A, B, e), e, S, rank, top);
    forall a | a in B && a.kind == Empty
      ensures a.co == 0 && a.from in S && a.to in S && rank(a.to) < rank(a.from) <= top
    {
      if a !in A {
        assert a in Added(A, B, e);
      }
    }
  }

  /** Each `unempty` lowers the total cost of the EMPTY arcs. */
  lemma UnemptyLowers(A: set<Arc>, B: set<Arc>, e: Arc, S: set<nat>, rank: nat -> nat, top: nat)
    requires Acyclic(A, S, rank, top) && e in A && e.kind == Empty
    requires B <= CopiedIns(A - {e}, e.from, e.to) || B <= CopiedOuts(A - {e}, e.to, e.from)
    ensures Total(EmptiesOf(B), Cost(rank, top, |S| + 1)) < Total(EmptiesOf(A), Cost(rank, top, |S| + 1))
  {
    var N := Added(A, B, e);
    FewAdded(A, B, N, e, S, rank, top);
    assert Acyclic({e}, S, rank, top);
    assert e in {e};
    NewCostsLess(N, e, S, rank, top);
    TotalExchange(A, B, e, Cost(rank, top, |S| + 1));
  }

  lemma TotalExchange(A: set<Arc>, B: set<Arc>, e: Arc, cost: Arc -> nat)
    requires e in EmptiesOf(A)
    ensures Total(EmptiesOf(B), cost) + cost(e) <= Total(EmptiesOf(A), cost) + Total(Added(A, B, e), cost)
  {
    TotalWithout(EmptiesOf(A), e, cost);
    assert EmptiesOf(B) <= (EmptiesOf(A) - {e}) + Added(A, B, e);
    TotalWithin(EmptiesOf(B), EmptiesOf(A) - {e}, Added(A, B, e), cost);
  }

  /** Eliminate EMPTY arcs until a pass makes no progress. Without EMPTY cycles that comes to an end;
      a bound on the passes that is above the total cost of the arcs is never reached. */
  method FixEmpties(nfa: Nfa, bound: Bound, ghost S: set<nat>, ghost rank: nat -> nat, ghost top: nat) returns (finished: bool)
    requires nfa.Valid() && Shaped(nfa.Ctx(), nfa.arcs)
    requires bound.Unbounded? ==> Acyclic(nfa.arcs, S, rank, top)
    modifies nfa`states, nfa`arcs, nfa`fresh_, nfa`no, nfa`nstates
    ensures nfa.Valid() && Shaped(nfa.Ctx(), nfa.arcs)
    ensures SameLanguage(nfa.Ctx(), old(nfa.arcs), nfa.arcs) && Labels(nfa.arcs) <= Labels(old(nfa.arcs))
    ensures SameWords(nfa.Ctx(), old(nfa.arcs), nfa.arcs)
    ensures finished ==> EmptiesOf(nfa.arcs) == {}
    ensures bound.Unbounded? ==> finished
    ensures old(Acyclic(nfa.arcs, S, rank, top)) && bound.AtMost? && bound.rounds > Total(EmptiesOf(old(nfa.arcs)), Cost(rank, top, |S| + 1)) ==> finished
    ensures CopiesOnly(old(nfa.arcs), nfa.arcs)
  {
    ghost var x, A, cost := nfa.Ctx(), nfa.arcs, Cost(rank, top, |S| + 1);
    finished := false;
    var left := if bound.AtMost? then bound.rounds else 0;
    while !finished && (bound.Unbounded? || left > 0)
      invariant nfa.Valid() && Shaped(x, nfa.arcs) && SameLanguage(x, A, nfa.arcs) && Labels(nfa.arcs) <= Labels(A)
      invariant SameWords(x, A, nfa.arcs) && CopiesOnly(A, nfa.arcs)
      invariant finished ==> EmptiesOf(nfa.arcs) == {}
      invariant bound.Unbounded? || left <= bound.rounds
      invariant Acyclic(A, S, rank, top) ==> Acyclic(nfa.arcs, S, rank, top)
      invariant Acyclic(A, S, rank, top) && !finished && bound.AtMost? ==> Total(EmptiesOf(nfa.arcs), cost) + (bound.rounds - left) <= Total(EmptiesOf(A), cost)
      decreases if bound.Unbounded? then Total(EmptiesOf(nfa.arcs), cost) + (if finished then 0 else 1) else left
    {
      ghost var B := nfa.arcs;
      var progress := EmptyPass(nfa, bound, S, rank, top);
      SameLanguageTransitive(x, A, B, nfa.arcs);
      SameWordsTransitive(x, A, B, nfa.arcs);
      CopiesOnlyTransitive(A, B, nfa.arcs);
      finished := !progress;
      if bound.AtMost? {
        left := left - 1;
      }
    }
  }

  /** Whatever ranking the arcs other than PLAIN ones lead up, they still do. */
  ghost predicate CopiesOnly(A: set<Arc>, B: set<Arc>) { forall rank: nat -> nat :: Climbs(A, rank) ==> Climbs(B, rank) }

  lemma CopiesOnlyTransitive(A: set<Arc>, B: set<Arc>, C: set<Arc>)
    requires CopiesOnly(A, B) && CopiesOnly(B, C)
    ensures CopiesOnly(A, C)
  {
  }

  lemma ReplacedCopies(A: set<Arc>, B: set<Arc>, e: Arc)
    requires e in A && e.kind == Empty && Replaced(A, B, e)
    ensures CopiesOnly(A, B)
  {
    forall rank: nat -> nat | Climbs(A, rank) ensures Climbs(B, rank) {
      forall b | b in B && b !in A && b.kind != Plain ensures rank(b.from) < rank(b.to) && (b.kind == Empty ==> b.co == 0) {
        if B <= CopiedIns(A - {e}, e.from, e.to) {
          var a :| a in InArcs(A - {e}, e.from) && b == a.(to := e.to);
        } else {
          var a :| a in OutArcs(A - {e}, e.to) && b == a.(from := e.from);
        }
      }
    }
  }

  /** One elimination, and what it does to the measure. */
  method EmptyStep(nfa: Nfa, e: Arc, ghost S: set<nat>, ghost rank: nat -> nat, ghost top: nat)
    requires nfa.Valid() && e in nfa.arcs && e.kind == Empty && Shaped(nfa.Ctx(), nfa.arcs)
    modifies nfa`states, nfa`arcs, nfa`fresh_, nfa`no, nfa`nstates
    ensures nfa.Valid() && Shaped(nfa.Ctx(), nfa.arcs) && Labels(nfa.arcs) <= Labels(old(nfa.arcs))
    ensures SameLanguage(nfa.Ctx(), old(nfa.arcs), nfa.arcs) && SameWords(nfa.Ctx(), old(nfa.arcs), nfa.arcs)
    ensures CopiesOnly(old(nfa.arcs), nfa.arcs)
    ensures old(Acyclic(nfa.arcs, S, rank, top)) ==>
      && Acyclic(nfa.arcs, S, rank, top)
      && Total(EmptiesOf(nfa.arcs), Cost(rank, top, |S| + 1)) < Total(EmptiesOf(old(nfa.arcs)), Cost(rank, top, |S| + 1))
  {
    ghost var B := nfa.arcs;
    Unempty(nfa, e);
    ReplacedCopies(B, nfa.arcs, e);
    if Acyclic(B, S, rank, top) {
      UnemptyAcyclic(B, nfa.arcs, e, S, rank, top);
      UnemptyLowers(B, nfa.arcs, e, S, rank, top);
    }
  }

  /** One pass. It may come upon arcs that it has made, and may end early once it has made progress. */
  method EmptyPass(nfa: Nfa, bound: Bound, ghost S: set<nat>, ghost rank: nat -> nat, ghost top: nat) returns (progress: bool)
    requires nfa.Valid() && Shaped(nfa.Ctx(), nfa.arcs)
    requires bound.Unbounded? ==> Acyclic(nfa.arcs, S, rank, top)
    modifies nfa`states, nfa`arcs, nfa`fresh_, nfa`no, nfa`nstates
    ensures nfa.Valid() && Shaped(nfa.Ctx(), nfa.arcs)
    ensures SameLanguage(nfa.Ctx(), old(nfa.arcs), nfa.arcs) && Labels(nfa.arcs) <= Labels(old(nfa.arcs))
    ensures SameWords(nfa.Ctx(), old(nfa.arcs), nfa.arcs) && CopiesOnly(old(nfa.arcs), nfa.arcs)
    ensures !progress ==> EmptiesOf(nfa.arcs) == {}
    ensures old(Acyclic(nfa.arcs, S, rank, top)) ==> Acyclic(nfa.arcs, S, rank, top)
    ensures old(Acyclic(nfa.arcs, S, rank, top)) ==> (progress ==> Total(EmptiesOf(nfa.arcs), Cost(rank, top, |S| + 1)) < Total(EmptiesOf(old(nfa.arcs)), Cost(rank, top, |S| + 1)))
  {
    ghost var x, A, cost := nfa.Ctx(), nfa.arcs, Cost(rank, top, |S| + 1);
    progress := false;
    var todo, more: nat := EmptiesOf(nfa.arcs), if bound.AtMost? then bound.rounds else 0;
    while todo != {}
      invariant nfa.Valid() && Shaped(x, nfa.arcs) && SameLanguage(x, A, nfa.arcs) && Labels(nfa.arcs) <= Labels(A)
      invariant SameWords(x, A, nfa.arcs) && CopiesOnly(A, nfa.arcs)
      invariant forall e :: e in todo ==> e.kind == Empty
      invariant !progress ==> nfa.arcs == A && todo == EmptiesOf(A)
      invariant Acyclic(A, S, rank, top) ==> Acyclic(nfa.arcs, S, rank, top)
      invariant Acyclic(A, S, rank, top) && progress ==> Total(EmptiesOf(nfa.arcs), cost) < Total(EmptiesOf(A), cost)
      decreases if bound.Unbounded? then Total(EmptiesOf(nfa.arcs), cost) else more, todo
    {
      var e :| e in todo;
      todo := todo - {e};
      if e in nfa.arcs {
        ghost var B := nfa.arcs;
        EmptyStep(nfa, e, S, rank, top);
        SameLanguageTransitive(x, A, B, nfa.arcs);
        SameWordsTransitive(x, A, B, nfa.arcs);
        CopiesOnlyTransitive(A, B, nfa.arcs);
        progress := true;
        if * {
          todo, more := ComeUpon(todo, EmptiesOf(nfa.arcs), bound, more);
        } else if * {
          return;
        }
      }
    }
  }

  /** A pass comes upon some of the arcs that have been made meanwhile; with a bound, upon one, and
      not for ever. */
  method ComeUpon(todo: set<Arc>, made: set<Arc>, bound: Bound, more: nat) returns (todo': set<Arc>, more': nat)
    ensures todo <= todo' <= todo + made && more' <= more
    ensures bound.AtMost? && more' == more ==> todo' == todo
  {
    todo', more' := todo, more;
    if bound.Unbounded? {
      var some :| some <= made;
      todo' := todo + some;
    } else if more > 0 && made != {} {
      var b :| b in made;
      todo', more' := todo + {b}, more - 1;
    }
  }
}

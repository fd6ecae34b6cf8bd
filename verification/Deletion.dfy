/** `delsub`: deleting a fragment, arcs and inner states. */
module Deletion {
  import opened Automaton
  import opened Surgery
  import opened NfaModel
  import opened Cleanup
  import opened Fragments

  /** What is being deleted, and the arcs and states there were. */
  datatype Job = Job(lp: nat, rp: nat, I: set<nat>, A: set<Arc>, S: set<nat>)

  /** The states in progress, outermost first, each but the first with the arc by which
      it was reached. */
  ghost predicate Stacked(j: Job, arcs: set<Arc>, stack: seq<nat>, entry: seq<Arc>) {
    && |entry| == |stack| && (stack != [] ==> stack[0] == j.lp)
    && (forall i, k :: 0 <= i < k < |stack| ==> stack[i] != stack[k])
    && (forall i :: 0 < i < |stack| ==> stack[i] in j.I && entry[i] in arcs && entry[i].from == stack[i - 1] && entry[i].to == stack[i])
  }

  /** State `u` has lost all its arcs, or is in progress. */
  ghost predicate Spent(arcs: set<Arc>, tmp: map<nat, nat>, u: nat) { u in tmp || OutArcs(arcs, u) == {} }

  /** If arc `a` has been deleted, it belonged to the fragment and its target is spent. */
  ghost predicate RightlyGone(j: Job, arcs: set<Arc>, tmp: map<nat, nat>, a: Arc) {
    a in j.A && a !in arcs ==> (a.from == j.lp || a.from in j.I) && Spent(arcs, tmp, a.to)
  }

  /** If an inner state is left, so is an arc into it. */
  ghost predicate Alive(j: Job, arcs: set<Arc>, states: set<nat>, u: nat) {
    u in j.I && u in states ==> InArcs(arcs, u) != {}
  }

  ghost predicate Deleting(j: Job, arcs: set<Arc>, states: set<nat>, tmp: map<nat, nat>, stack: seq<nat>, entry: seq<Arc>) {
    && Fragment(j.A, j.lp, j.rp, j.I) && Stacked(j, arcs, stack, entry)
    && arcs <= j.A && states <= j.S && j.S - states <= j.I
    && tmp.Keys == (set u | u in stack) + {j.rp}
    && (forall u :: Alive(j, arcs, states, u))
    && (forall a :: RightlyGone(j, arcs, tmp, a))
  }

  /** Taking out one arc, and then its target if nothing leads there any more. */
  lemma TakeOut(j: Job, arcs: set<Arc>, states: set<nat>, tmp: map<nat, nat>, stack: seq<nat>, entry: seq<Arc>, a: Arc, free: bool)
    requires Deleting(j, arcs, states, tmp, stack, entry) && stack != [] && a in arcs && a.from == stack[|stack| - 1]
    requires Spent(arcs, tmp, a.to)
    requires free <==> InArcs(arcs - {a}, a.to) == {} && a.to !in tmp
    ensures Deleting(j, arcs - {a}, if free then states - {a.to} else states, tmp, stack, entry)
    ensures free ==> a.to in j.I && Untouched(arcs - {a}, a.to)
  {
    var B, states' := arcs - {a}, if free then states - {a.to} else states;
    assert a.to == j.rp || a.to in j.I;
    forall i | 0 < i < |stack| ensures entry[i] in B {
      assert stack[i - 1] != stack[|stack| - 1];
    }
    forall u | true ensures Alive(j, B, states', u) {
      assert Alive(j, arcs, states, u);
      if u != a.to {
        assert InArcs(B, u) == InArcs(arcs, u);
      } else if u in j.I && u in tmp {
        var i :| 0 <= i < |stack| && stack[i] == u;
        assert entry[i] in InArcs(B, u);
      }
    }
    forall b | true ensures RightlyGone(j, B, tmp, b) {
      assert RightlyGone(j, arcs, tmp, b);
      assert OutArcs(arcs, b.to) == {} ==> OutArcs(B, b.to) == {};
    }
    if free {
      assert forall b :: b in B && b.to == a.to ==> b in InArcs(B, a.to);
      assert forall b :: b in arcs && b.from == a.to ==> b in OutArcs(arcs, a.to);
    }
  }

  /** Putting `s` on the stack, and taking it off when it has lost all its arcs. */
  lemma PutOn(j: Job, arcs: set<Arc>, states: set<nat>, tmp: map<nat, nat>, stack: seq<nat>, entry: seq<Arc>, s: nat, e: Arc)
    requires Deleting(j, arcs, states, tmp, stack, entry) && s !in tmp
    requires if stack == [] then s == j.lp else e in arcs && e.from == stack[|stack| - 1] && e.to == s
    ensures Deleting(j, arcs, states, tmp[s := s], stack + [s], entry + [e])
    ensures j.I + {j.lp} - (set u | u in stack + [s]) < j.I + {j.lp} - (set u | u in stack)
  {
    assert stack != [] ==> stack[|stack| - 1] == j.lp || stack[|stack| - 1] in j.I;
    var tmp' := tmp[s := s];
    forall a | true ensures RightlyGone(j, arcs, tmp', a) {
      assert RightlyGone(j, arcs, tmp, a);
    }
    assert (set u | u in stack + [s]) == (set u | u in stack) + {s};
    assert s in j.I + {j.lp} && s !in stack;
  }

  lemma TakeOff(j: Job, arcs: set<Arc>, states: set<nat>, tmp: map<nat, nat>, stack: seq<nat>, entry: seq<Arc>, s: nat, e: Arc)
    requires Deleting(j, arcs, states, tmp[s := s], stack + [s], entry + [e]) && OutArcs(arcs, s) == {} && |stack| == |entry|
    requires s !in tmp
    ensures Deleting(j, arcs, states, tmp, stack, entry) && tmp[s := s] - {s} == tmp && (stack + [s])[..|stack|] == stack
  {
    var stack', entry' := stack + [s], entry + [e];
    assert stack'[|stack|] == s;
    forall i | 0 <= i < |stack| ensures stack[i] == stack'[i] && entry[i] == entry'[i] && stack[i] != s {
    }
    assert (set u | u in stack') == (set u | u in stack) + {s};
    assert s != j.rp by { assert |stack| > 0 ==> s in j.I; }
    assert tmp[s := s] - {s} == tmp;
    forall a | true ensures RightlyGone(j, arcs, tmp, a) {
      assert RightlyGone(j, arcs, tmp[s := s], a);
    }
  }

  /** What a traversal leaves alone: the marks, and all arcs out of states in progress. */
  ghost predicate LeftAlone(before: set<Arc>, after: set<Arc>, stack: seq<nat>) {
    after <= before && forall a :: a in before && a.from in stack ==> a in after
  }

  /** Delete one arc out of `s`, and what it leads to. */
  method DelArc(nfa: Nfa, s: nat, a: Arc, ghost j: Job, ghost stack: seq<nat>, ghost entry: seq<Arc>)
    requires nfa.Valid() && Deleting(j, nfa.arcs, Members(nfa.states), nfa.tmp, stack, entry)
    requires stack != [] && stack[|stack| - 1] == s && a in nfa.arcs && a.from == s && nfa.pre !in j.I && nfa.post !in j.I
    modifies nfa`arcs, nfa`states, nfa`tmp, nfa`no
    ensures nfa.Valid() && Deleting(j, nfa.arcs, Members(nfa.states), nfa.tmp, stack, entry) && nfa.tmp == old(nfa.tmp)
    ensures LeftAlone(old(nfa.arcs), nfa.arcs + {a}, stack) && a !in nfa.arcs
    decreases j.I + {j.lp} - (set u | u in stack), 2
  {
    var to := a.to;
    DelTraverse(nfa, to, a, j, stack, entry);
    ghost var B := nfa.arcs;
    nfa.FreeArc(a);
    assert nfa.arcs == B - {a};
    var free := InArcs(nfa.arcs, to) == {} && to !in nfa.tmp;
    TakeOut(j, B, Members(nfa.states), nfa.tmp, stack, entry, a, free);
    if free {
      WithoutMembers(nfa.states, to);
      ghost var states := nfa.states;
      nfa.FreeState(to);
      assert Members(nfa.states) == Members(states) - {to};
    }
  }

  /** Delete all arcs out of `s`, unless that is under way, and what they lead to. */
  method DelTraverse(nfa: Nfa, s: nat, ghost e: Arc, ghost j: Job, ghost stack: seq<nat>, ghost entry: seq<Arc>)
    requires nfa.Valid() && Deleting(j, nfa.arcs, Members(nfa.states), nfa.tmp, stack, entry)
    requires if stack == [] then s == j.lp else e in nfa.arcs && e.from == stack[|stack| - 1] && e.to == s
    requires s in nfa.states && nfa.pre !in j.I && nfa.post !in j.I
    modifies nfa`arcs, nfa`states, nfa`tmp, nfa`no
    ensures nfa.Valid() && Deleting(j, nfa.arcs, Members(nfa.states), nfa.tmp, stack, entry) && nfa.tmp == old(nfa.tmp)
    ensures LeftAlone(old(nfa.arcs), nfa.arcs, stack) && Spent(nfa.arcs, nfa.tmp, s)
    decreases j.I + {j.lp} - (set u | u in stack), 1
  {
    if OutArcs(nfa.arcs, s) == {} {
      return;
    }
    if s in nfa.tmp {
      return;
    }
    DelMarked(nfa, s, e, j, stack, entry);
  }

  /** The same for a state that has arcs out of it and is not marked yet. */
  method DelMarked(nfa: Nfa, s: nat, ghost e: Arc, ghost j: Job, ghost stack: seq<nat>, ghost entry: seq<Arc>)
    requires nfa.Valid() && Deleting(j, nfa.arcs, Members(nfa.states), nfa.tmp, stack, entry)
    requires if stack == [] then s == j.lp else e in nfa.arcs && e.from == stack[|stack| - 1] && e.to == s
    requires s in nfa.states && s !in nfa.tmp && OutArcs(nfa.arcs, s) != {} && nfa.pre !in j.I && nfa.post !in j.I
    modifies nfa`arcs, nfa`states, nfa`tmp, nfa`no
    ensures nfa.Valid() && Deleting(j, nfa.arcs, Members(nfa.states), nfa.tmp, stack, entry) && nfa.tmp == old(nfa.tmp)
    ensures LeftAlone(old(nfa.arcs), nfa.arcs, stack) && OutArcs(nfa.arcs, s) == {}
    decreases j.I + {j.lp} - (set u | u in stack), 0
  {
    ghost var tmp := nfa.tmp;
    nfa.tmp := nfa.tmp[s := s];
    PutOn(j, nfa.arcs, Members(nfa.states), tmp, stack, entry, s, e);
    DelArcs(nfa, s, j, stack + [s], entry + [e]);
    TakeOff(j, nfa.arcs, Members(nfa.states), tmp, stack, entry, s, e);
    nfa.tmp := nfa.tmp - {s};
  }

  /** Delete the arcs out of `s` one by one. */
  method DelArcs(nfa: Nfa, s: nat, ghost j: Job, ghost stack: seq<nat>, ghost entry: seq<Arc>)
    requires nfa.Valid() && Deleting(j, nfa.arcs, Members(nfa.states), nfa.tmp, stack, entry)
    requires stack != [] && stack[|stack| - 1] == s && nfa.pre !in j.I && nfa.post !in j.I
    modifies nfa`arcs, nfa`states, nfa`tmp, nfa`no
    ensures nfa.Valid() && Deleting(j, nfa.arcs, Members(nfa.states), nfa.tmp, stack, entry) && nfa.tmp == old(nfa.tmp)
    ensures LeftAlone(old(nfa.arcs), nfa.arcs, stack[..|stack| - 1]) && OutArcs(nfa.arcs, s) == {}
    decreases j.I + {j.lp} - (set u | u in stack), 3
  {
    while OutArcs(nfa.arcs, s) != {}
      invariant nfa.Valid() && Deleting(j, nfa.arcs, Members(nfa.states), nfa.tmp, stack, entry) && nfa.tmp == old(nfa.tmp)
      invariant LeftAlone(old(nfa.arcs), nfa.arcs, stack[..|stack| - 1])
      decreases OutArcs(nfa.arcs, s)
    {
      var a :| a in OutArcs(nfa.arcs, s);
      DelArc(nfa, s, a, j, stack, entry);
      assert a !in OutArcs(nfa.arcs, s);
    }
  }

  // ----- the whole deletion

  lemma {:induction false} SpentAlong(j: Job, arcs: set<Arc>, F: set<Arc>, u: nat, v: nat, n: nat)
    requires Fragment(j.A, j.lp, j.rp, j.I) && F == j.A - Outside(j.A, j.lp, j.I)
    requires OutArcs(arcs, u) == {} && forall a :: a in j.A && a !in arcs ==> a.to == j.rp || OutArcs(arcs, a.to) == {}
    requires Leads(F, u, v, n) && v in j.I
    ensures OutArcs(arcs, v) == {}
    decreases n
  {
    if n > 0 {
      var a :| a in F && a.from == u && Leads(F, a.to, v, n - 1);
      assert a in arcs ==> a in OutArcs(arcs, u);
      assert a.to == j.rp ==> n == 1;
      SpentAlong(j, arcs, F, a.to, v, n - 1);
    }
  }

  /** When the traversal is over nothing is left of a fragment all of whose states can be reached. */
  lemma NothingLeft(j: Job, arcs: set<Arc>, states: set<nat>, tmp: map<nat, nat>)
    requires Deleting(j, arcs, states, tmp, [], []) && OutArcs(arcs, j.lp) == {} && j.I <= j.S
    requires forall u :: u in j.I ==> Joined(j.A - Outside(j.A, j.lp, j.I), j.lp, u)
    ensures arcs == Outside(j.A, j.lp, j.I) && states == j.S - j.I
  {
    var F := j.A - Outside(j.A, j.lp, j.I);
    forall a | a in j.A && a !in arcs ensures a.to == j.rp || OutArcs(arcs, a.to) == {} {
      assert RightlyGone(j, arcs, tmp, a);
    }
    forall u | u in j.I ensures OutArcs(arcs, u) == {} {
      var n: nat :| Leads(F, j.lp, u, n);
      SpentAlong(j, arcs, F, j.lp, u, n);
    }
    forall a | a in F ensures a !in arcs {
      assert a in arcs ==> a in OutArcs(arcs, a.from);
    }
    forall u | u in j.I ensures u !in states {
      assert InArcs(arcs, u) == {} by { assert forall a :: a in arcs && a.to == u ==> a in F; }
      assert Alive(j, arcs, states, u);
    }
    forall a | a in j.A && a !in F ensures a in arcs {
      assert RightlyGone(j, arcs, tmp, a);
    }
  }

  /** Delete the fragment from `lp` to `rp`: its arcs and the states `I` inside it go,
      and nothing else does. */
  method DelSub(nfa: Nfa, lp: nat, rp: nat, ghost I: set<nat>)
    requires nfa.Valid() && nfa.Clean() && Fragment(nfa.arcs, lp, rp, I) && nfa.pre !in I && nfa.post !in I
    requires I + {lp, rp} <= Members(nfa.states)
    requires forall u :: u in I ==> Joined(nfa.arcs - Outside(nfa.arcs, lp, I), lp, u)
    modifies nfa`arcs, nfa`states, nfa`tmp, nfa`no
    ensures nfa.Valid() && nfa.Clean()
    ensures nfa.arcs == Outside(old(nfa.arcs), lp, I) && Members(nfa.states) == Members(old(nfa.states)) - I
  {
    ghost var j := Job(lp, rp, I, nfa.arcs, Members(nfa.states));
    nfa.tmp := nfa.tmp[rp := rp];
    forall u | true ensures Alive(j, nfa.arcs, Members(nfa.states), u) {
      if u in I { Entered(nfa.arcs, lp, rp, I, u); }
    }
    forall a | true ensures RightlyGone(j, nfa.arcs, nfa.tmp, a) {
    }
    assert lp in Members(nfa.states) && Deleting(j, nfa.arcs, Members(nfa.states), nfa.tmp, [], []);
    DelTraverse(nfa, lp, EmptyArc(lp, rp), j, [], []);
    assert OutArcs(nfa.arcs, lp) == {};
    NothingLeft(j, nfa.arcs, Members(nfa.states), nfa.tmp);
    nfa.tmp := nfa.tmp - {rp};
    nfa.tmp := nfa.tmp - {lp};
  }

  lemma Entered(A: set<Arc>, lp: nat, rp: nat, I: set<nat>, u: nat)
    requires Fragment(A, lp, rp, I) && u in I && Joined(A - Outside(A, lp, I), lp, u)
    ensures InArcs(A, u) != {}
  {
    var n: nat :| Leads(A - Outside(A, lp, I), lp, u, n);
    LastStep(A - Outside(A, lp, I), lp, u, n);
  }

  lemma {:induction false} LastStep(F: set<Arc>, s: nat, u: nat, n: nat)
    requires Leads(F, s, u, n) && s != u
    ensures InArcs(F, u) != {}
    decreases n
  {
    var a :| a in F && a.from == s && Leads(F, a.to, u, n - 1);
    if a.to == u {
      assert a in InArcs(F, u);
    } else {
      LastStep(F, a.to, u, n - 1);
    }
  }
}

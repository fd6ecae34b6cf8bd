/** `dupnfa`: duplicating a fragment, within one NFA or from one NFA into another. */
module Duplicate {
  import opened Automaton
  import opened Surgery
  import opened NfaModel
  import opened Cleanup
  import opened Compaction
  import opened Fragments

  /** What is being duplicated: the arcs `F`, out of the states `D`, of the fragment from
      `start` to `stop`, strung from `from` to `to`; the duplicates are the states from
      `base` on, and `G0` are the arcs there were. */
  datatype Job = Job(F: set<Arc>, D: set<nat>, start: nat, stop: nat, from: nat, to: nat, base: nat, G0: set<Arc>)

  /** `same` says that the duplicate goes into the NFA it is a duplicate of. */
  ghost predicate Sound(j: Job, same: bool) {
    && j.start in j.D && j.stop !in j.D && j.from < j.base && j.to < j.base
    && (forall a :: a in j.F ==> a.from in j.D && a.to != j.start && (a.to in j.D || a.to == j.stop))
    && (same ==> j.from !in j.D && forall u :: u in j.D ==> u < j.base)
  }

  /** The arcs to be duplicated are still there, and no others leave their states. */
  ghost predicate SourceKept(j: Job, A: set<Arc>) { forall a: Arc :: a.from in j.D ==> (a in A <==> a in j.F) }

  /** The duplicate of `u`, if it has one yet: `from` for the start, `to` for the stop, and
      for others a state made for the purpose. */
  ghost predicate GoodDup(j: Job, tmp: map<nat, nat>, states: set<nat>, hi: nat, u: nat) {
    u in tmp ==>
      && (u in j.D || u == j.stop) && tmp[u] in states
      && if u == j.start then tmp[u] == j.from else if u == j.stop then tmp[u] == j.to else j.base <= tmp[u] < hi
  }

  /** Made states are duplicates of one state each. */
  ghost predicate Apart(j: Job, tmp: map<nat, nat>, u: nat, v: nat) {
    u in tmp && v in tmp && u != v && u != j.start && u != j.stop && v != j.start && v != j.stop ==> tmp[u] != tmp[v]
  }

  ghost predicate Marks(j: Job, tmp: map<nat, nat>, states: set<nat>, hi: nat) {
    && j.stop in tmp && (forall u :: GoodDup(j, tmp, states, hi, u)) && (forall u, v :: Apart(j, tmp, u, v))
  }

  /** With the duplicates `tmp`, the arcs `done` have been copied. */
  ghost predicate Copied(j: Job, tmp: map<nat, nat>, G: set<Arc>, done: set<Arc>) {
    done <= j.F && (forall a :: a in done ==> a.from in tmp && a.to in tmp) && G == j.G0 + Renamed(done, tmp)
  }

  /** All arcs out of `u` have been copied. */
  ghost predicate Finished(j: Job, done: set<Arc>, u: nat) { forall a :: a in j.F && a.from == u ==> a in done }

  /** Since the marks were `before`, marks were added to states that are reached from
      `s`, and each such state but `s` itself, if `open`, is finished. */
  ghost predicate Progress(j: Job, before: map<nat, nat>, after: map<nat, nat>, done0: set<Arc>, done: set<Arc>, s: nat, open: bool) {
    && before.Keys <= after.Keys && (forall u :: u in before ==> after[u] == before[u]) && done0 <= done
    && (forall u :: u in after && u !in before && !(open && u == s) ==> Finished(j, done, u))
    && (forall u :: u in after && u !in before ==> Joined(j.F, s, u))
  }

  lemma RenamedGrow(done: set<Arc>, before: map<nat, nat>, after: map<nat, nat>)
    requires before.Keys <= after.Keys && forall u :: u in before ==> after[u] == before[u]
    requires forall a :: a in done ==> a.from in before && a.to in before
    ensures Renamed(done, after) == Renamed(done, before)
  {
    forall a | a in done ensures RenamedArc(a, after) == RenamedArc(a, before) {
    }
  }

  /** Giving `s` its duplicate. */
  lemma Mark(j: Job, tmp: map<nat, nat>, states: set<nat>, hi: nat, s: nat, dup: nat, states': set<nat>, hi': nat)
    requires Marks(j, tmp, states, hi) && s in j.D && s !in tmp && j.stop != s && hi <= hi' && states <= states'
    requires dup in states' && if s == j.start then dup == j.from else hi <= dup < hi' && j.base <= dup
    ensures Marks(j, tmp[s := dup], states', hi')
  {
    var tmp' := tmp[s := dup];
    forall u | true ensures GoodDup(j, tmp', states', hi', u) {
      assert GoodDup(j, tmp, states, hi, u);
    }
    forall u, v | true ensures Apart(j, tmp', u, v) {
      assert Apart(j, tmp, u, v) && GoodDup(j, tmp, states, hi, u) && GoodDup(j, tmp, states, hi, v);
    }
  }

  lemma CopiedMark(j: Job, tmp: map<nat, nat>, G: set<Arc>, done: set<Arc>, s: nat, dup: nat)
    requires Copied(j, tmp, G, done) && s !in tmp
    ensures Copied(j, tmp[s := dup], G, done)
  {
    RenamedGrow(done, tmp, tmp[s := dup]);
  }

  lemma CopyOne(j: Job, tmp: map<nat, nat>, G: set<Arc>, done: set<Arc>, a: Arc)
    requires Copied(j, tmp, G, done) && a in j.F && a.from in tmp && a.to in tmp
    ensures Copied(j, tmp, G + {RenamedArc(a, tmp)}, done + {a})
  {
  }

  lemma ProgressOn(j: Job, before: map<nat, nat>, mid: map<nat, nat>, after: map<nat, nat>, done0: set<Arc>, done1: set<Arc>, done2: set<Arc>, s: nat, a: Arc)
    requires Progress(j, before, mid, done0, done1, s, true) && Progress(j, mid, after, done1, done2, a.to, false)
    requires a in j.F && a.from == s
    ensures Progress(j, before, after, done0, done2, s, true)
  {
    forall u | u in after && u !in before && u != s ensures Finished(j, done2, u) {
      if u in mid { assert Finished(j, done1, u); }
    }
    forall u | u in after && u !in before ensures Joined(j.F, s, u) {
      if u !in mid { LeadsFirst(j.F, a, u); }
    }
  }

  /** What every step of the traversal keeps. */
  ghost predicate Working(src: Nfa, dst: Nfa, j: Job, done: set<Arc>)
    reads src, dst
  {
    && src.Valid() && dst.Valid() && Sound(j, src == dst) && SourceKept(j, src.arcs) && j.base <= dst.fresh_
    && j.D + {j.stop} <= Members(src.states)
    && Marks(j, src.tmp, Members(dst.states), dst.fresh_) && Copied(j, src.tmp, dst.arcs, done)
  }

  /** Give the start its duplicate. */
  method MarkStart(src: Nfa, dst: Nfa, s: nat, dup: nat, ghost j: Job, ghost done: set<Arc>)
    requires Working(src, dst, j, done) && s == j.start && s !in src.tmp && dup == j.from && j.from in dst.states
    modifies src`tmp
    ensures Working(src, dst, j, done) && src.tmp == old(src.tmp)[s := dup]
  {
    ghost var tmp, states := src.tmp, Members(dst.states);
    src.tmp := src.tmp[s := dup];
    Mark(j, tmp, states, dst.fresh_, s, dup, states, dst.fresh_);
    CopiedMark(j, tmp, dst.arcs, done, s, dup);
  }

  /** Give `s` a new state as its duplicate. */
  method MarkNew(src: Nfa, dst: Nfa, s: nat, ghost j: Job, ghost done: set<Arc>)
    requires Working(src, dst, j, done) && s in j.D && s != j.start && s !in src.tmp
    modifies src`tmp, dst`states, dst`fresh_, dst`no, dst`nstates
    ensures Working(src, dst, j, done) && src.tmp == old(src.tmp)[s := old(dst.fresh_)]
    ensures Members(old(src.states)) <= Members(src.states) && Members(old(dst.states)) <= Members(dst.states)
  {
    ghost var hi, tmp, states := dst.fresh_, src.tmp, Members(dst.states);
    var dup := dst.NewState();
    src.tmp := src.tmp[s := dup];
    Mark(j, tmp, states, hi, s, dup, Members(dst.states), dst.fresh_);
    CopiedMark(j, tmp, dst.arcs, done, s, dup);
  }

  /** Copy one arc whose ends have duplicates. */
  method CopyDup(src: Nfa, dst: Nfa, a: Arc, ghost j: Job, ghost done: set<Arc>)
    requires Working(src, dst, j, done) && a in j.F && a.from in src.tmp && a.to in src.tmp
    modifies dst`arcs
    ensures Working(src, dst, j, done + {a})
  {
    ghost var A, S := dst.arcs, Members(dst.states);
    assert GoodDup(j, src.tmp, S, dst.fresh_, a.from) && GoodDup(j, src.tmp, S, dst.fresh_, a.to);
    dst.CopyArc(a, src.tmp[a.from], src.tmp[a.to]);
    CopyOne(j, src.tmp, A, done, a);
  }

  /** Duplicate what arc `a`, out of `s`, leads to, and copy the arc. */
  method DupArc(src: Nfa, dst: Nfa, s: nat, a: Arc, ghost j: Job, ghost before: map<nat, nat>, ghost done0: set<Arc>, ghost done1: set<Arc>)
    returns (ghost done: set<Arc>)
    requires Working(src, dst, j, done1) && a in j.F && a.from == s && s in src.tmp
    requires Progress(j, before, src.tmp, done0, done1, s, true)
    modifies src`tmp, dst`arcs, dst`states, dst`fresh_, dst`no, dst`nstates
    ensures Working(src, dst, j, done) && done1 <= done && a in done && old(src.tmp.Keys) <= src.tmp.Keys
    ensures Progress(j, before, src.tmp, done0, done, s, true)
    ensures Members(old(src.states)) <= Members(src.states) && Members(old(dst.states)) <= Members(dst.states)
    decreases j.D - src.tmp.Keys, 1
  {
    ghost var mid := src.tmp;
    done := DupTraverse(src, dst, a.to, UNMARKED, j, done1);
    ProgressOn(j, before, mid, src.tmp, done0, done1, done, s, a);
    CopyDup(src, dst, a, j, done);
    done := done + {a};
  }

  /** Go through the arcs out of `s`. */
  method DupArcs(src: Nfa, dst: Nfa, s: nat, ghost j: Job, ghost before: map<nat, nat>, ghost done0: set<Arc>) returns (ghost done: set<Arc>)
    requires Working(src, dst, j, done0) && s in j.D && s in src.tmp
    requires Progress(j, before, src.tmp, done0, done0, s, true)
    modifies src`tmp, dst`arcs, dst`states, dst`fresh_, dst`no, dst`nstates
    ensures Working(src, dst, j, done) && OutArcs(j.F, s) <= done && old(src.tmp.Keys) <= src.tmp.Keys
    ensures Progress(j, before, src.tmp, done0, done, s, true)
    ensures Members(old(src.states)) <= Members(src.states) && Members(old(dst.states)) <= Members(dst.states)
    decreases j.D - src.tmp.Keys, 2
  {
    done := done0;
    ghost var keys, S, T, all := src.tmp.Keys, Members(src.states), Members(dst.states), OutArcs(j.F, s);
    var outs := OutArcs(src.arcs, s);
    assert outs == all;
    while outs != {}
      invariant Working(src, dst, j, done) && outs <= all && all - outs <= done
      invariant Progress(j, before, src.tmp, done0, done, s, true)
      invariant keys <= src.tmp.Keys && S <= Members(src.states) && T <= Members(dst.states)
      decreases outs
    {
      var a :| a in outs;
      outs := outs - {a};
      done := DupArc(src, dst, s, a, j, before, done0, done);
    }
  }

  lemma ProgressStart(j: Job, before: map<nat, nat>, after: map<nat, nat>, done: set<Arc>, s: nat)
    requires after.Keys == before.Keys + {s} && forall u :: u in before ==> after[u] == before[u]
    ensures Progress(j, before, after, done, done, s, true)
  {
    JoinedSelf(j.F, s);
  }

  lemma ProgressEnd(j: Job, before: map<nat, nat>, after: map<nat, nat>, done0: set<Arc>, done: set<Arc>, s: nat)
    requires Progress(j, before, after, done0, done, s, true) && OutArcs(j.F, s) <= done
    ensures Progress(j, before, after, done0, done, s, false)
  {
    assert forall a :: a in j.F && a.from == s ==> a in OutArcs(j.F, s);
    assert Finished(j, done, s);
  }

  /** Duplicate `s`, unless that is done or under way, and what its arcs lead to. */
  method DupTraverse(src: Nfa, dst: Nfa, s: nat, stmp: int, ghost j: Job, ghost done0: set<Arc>) returns (ghost done: set<Arc>)
    requires Working(src, dst, j, done0) && (s in j.D || s == j.stop)
    requires if s == j.start then stmp == j.from && j.from in dst.states else stmp == UNMARKED
    modifies src`tmp, dst`arcs, dst`states, dst`fresh_, dst`no, dst`nstates
    ensures Working(src, dst, j, done) && s in src.tmp
    ensures Progress(j, old(src.tmp), src.tmp, done0, done, s, false)
    ensures Members(old(src.states)) <= Members(src.states) && Members(old(dst.states)) <= Members(dst.states)
    decreases j.D - src.tmp.Keys, 0
  {
    ghost var before := src.tmp;
    if s in src.tmp {
      return done0;
    }
    if stmp == UNMARKED {
      MarkNew(src, dst, s, j, done0);
    } else {
      MarkStart(src, dst, s, stmp, j, done0);
    }
    ghost var began := src.tmp;
    assert j.D - began.Keys == (j.D - before.Keys) - {s};
    ProgressStart(j, before, began, done0, s);
    done := DupArcs(src, dst, s, j, before, done0);
    ProgressEnd(j, before, src.tmp, done0, done, s);
  }

  // ----- the whole duplication

  /** The duplicate as a copy in the sense of `CopyOf`. */
  function Inner(tmp: map<nat, nat>, start: nat, stop: nat): map<nat, nat> { tmp - {start, stop} }

  ghost predicate AllDone(j: Job, tmp: map<nat, nat>, done: set<Arc>) {
    j.start in tmp && forall u :: u in tmp && u != j.stop ==> Finished(j, done, u)
  }

  /** The arcs copied are those out of the marked states. */
  lemma DoneIsAll(j: Job, same: bool, tmp: map<nat, nat>, states: set<nat>, hi: nat, G: set<Arc>, done: set<Arc>)
    requires Sound(j, same) && Marks(j, tmp, states, hi) && Copied(j, tmp, G, done) && AllDone(j, tmp, done)
    ensures done == set a | a in j.F && a.from in tmp
    ensures forall a :: a in done ==> RenamedArc(a, tmp) == Strung(a, Inner(tmp, j.start, j.stop), j.start, j.stop, j.from, j.to)
  {
    forall a | a in j.F && a.from in tmp ensures a in done {
      assert Finished(j, done, a.from);
    }
    forall a | a in done ensures RenamedArc(a, tmp) == Strung(a, Inner(tmp, j.start, j.stop), j.start, j.stop, j.from, j.to) {
      assert GoodDup(j, tmp, states, hi, a.from) && GoodDup(j, tmp, states, hi, a.to);
    }
  }

  /** Nothing leads out of `start` and the states `I` but to `I` and to `stop`. */
  ghost predicate Enclosed(A: set<Arc>, I: set<nat>, start: nat, stop: nat) {
    && start != stop && start !in I && stop !in I
    && forall a :: a in A && (a.from == start || a.from in I) ==> a.to == stop || a.to in I
  }

  /** `G` is `G0` and a copy, strung from `from` to `to` by states not in use before, of
      the arcs that can be reached from `start`. */
  ghost predicate Duplicated(A: set<Arc>, I: set<nat>, start: nat, stop: nat, G0: set<Arc>, from: nat, to: nat,
                             R: set<nat>, no: map<nat, nat>, J: set<nat>, base: nat, hi: nat, G: set<Arc>) {
    && start in R && R <= I + {start} && no.Keys == R - {start} && J == no.Values
    && (forall a :: a in A && a.from in R ==> a.to == stop || (a.to in R && a.to != start))
    && (forall u :: u in no ==> base <= no[u] < hi)
    && (forall u, v :: u in no && v in no && no[u] == no[v] ==> u == v)
    && G == G0 + set a | a in A && a.from in R :: Strung(a, no, start, stop, from, to)
  }

  /** A duplicate strung from a state that nothing left before has the original's words. */
  lemma DuplicateSpeaksAlike(A: set<Arc>, I: set<nat>, start: nat, stop: nat, G0: set<Arc>, from: nat, to: nat,
                             R: set<nat>, no: map<nat, nat>, J: set<nat>, base: nat, hi: nat, G: set<Arc>)
    requires Enclosed(A, I, start, stop) && Duplicated(A, I, start, stop, G0, from, to, R, no, J, base, hi, G)
    requires from < base && to < base && forall b :: b in G0 ==> b.from != from && b.from < base
    ensures Lang(G, J, from, to) == Lang(A, I, start, stop)
  {
    forall b | b in G && (b.from == from || b.from in J)
      ensures exists a :: a in A && a.from in R && b == Strung(a, no, start, stop, from, to)
    {
    }
    CopySpeaksAlike(A, I, start, stop, R, no, G, J, from, to);
  }

  lemma {:induction false} ClearedAlong(j: Job, A: set<Arc>, before: set<nat>, after: set<nat>, u: nat, v: nat, n: nat)
    requires SourceKept(j, A) && j.stop !in j.D && (forall a :: a in j.F ==> a.from in j.D) && before <= j.D
    requires forall a :: a in A && a.from in before && a.from !in after ==> a.to !in after
    requires forall a :: a in j.F && a.from in before ==> a.to in before || a.to == j.stop
    requires u in before && u !in after && Leads(j.F, u, v, n)
    ensures v == j.stop || (v in before && v !in after)
    decreases n
  {
    if n > 0 {
      var a :| a in j.F && a.from == u && Leads(j.F, a.to, v, n - 1);
      if a.to == j.stop {
        assert n == 1;
      } else {
        ClearedAlong(j, A, before, after, a.to, v, n - 1);
      }
    }
  }

  /** After a traversal of the marks from the start, none are left. */
  lemma AllMarksCleared(j: Job, same: bool, A: set<Arc>, before: set<nat>, after: set<nat>)
    requires Sound(j, same) && SourceKept(j, A) && j.start in before && j.start !in after && after <= before <= j.D
    requires forall a :: a in A && a.from in before && a.from !in after ==> a.to !in after
    requires forall a :: a in j.F && a.from in before ==> a.to in before || a.to == j.stop
    requires forall u :: u in before ==> Joined(j.F, j.start, u)
    ensures after == {}
  {
    forall u | u in before ensures u !in after {
      var n: nat :| Leads(j.F, j.start, u, n);
      ClearedAlong(j, A, before, after, j.start, u, n);
    }
  }

  /** The marks that a finished duplication leaves say how the copy was made. */
  lemma MarksTellCopy(j: Job, same: bool, I: set<nat>, A: set<Arc>, tmp: map<nat, nat>, states: set<nat>, hi: nat, G: set<Arc>, done: set<Arc>)
    requires Sound(j, same) && Marks(j, tmp, states, hi) && Copied(j, tmp, G, done) && AllDone(j, tmp, done)
    requires j.D == I + {j.start} && j.start !in I && j.F == set a | a in A && a.from in j.D
    ensures var no := Inner(tmp, j.start, j.stop);
            Duplicated(A, I, j.start, j.stop, j.G0, j.from, j.to, tmp.Keys - {j.stop}, no, no.Values, j.base, hi, G)
  {
    var no, R := Inner(tmp, j.start, j.stop), tmp.Keys - {j.stop};
    DoneIsAll(j, same, tmp, states, hi, G, done);
    forall u | u in tmp ensures u in j.D || u == j.stop { assert GoodDup(j, tmp, states, hi, u); }
    forall a | a in A && a.from in R ensures a.to == j.stop || (a.to in R && a.to != j.start) {
      assert a in done;
    }
    forall u | u in no ensures j.base <= no[u] < hi { assert GoodDup(j, tmp, states, hi, u); }
    forall u, v | u in no && v in no && no[u] == no[v] ensures u == v { assert Apart(j, tmp, u, v); }
    var copies := set a | a in A && a.from in R :: Strung(a, no, j.start, j.stop, j.from, j.to);
    assert Renamed(done, tmp) == copies by {
      assert forall a :: a in A && a.from in R <==> a in done;
    }
  }

  /** The traversals of `dupnfa`, between distinct ends. */
  method DupMarked(src: Nfa, dst: Nfa, start: nat, stop: nat, from: nat, to: nat, ghost I: set<nat>, ghost j: Job)
    returns (ghost tmp: map<nat, nat>, ghost done: set<Arc>)
    requires Working(src, dst, j, {}) && src.tmp == map[stop := to]
    requires j.start == start && j.stop == stop && j.from == from && j.to == to && from in dst.states
    modifies src`tmp, dst`arcs, dst`states, dst`fresh_, dst`no, dst`nstates
    ensures src.Valid() && dst.Valid() && src.Clean()
    ensures Marks(j, tmp, Members(dst.states), dst.fresh_) && Copied(j, tmp, dst.arcs, done) && AllDone(j, tmp, done)
    ensures Members(old(src.states)) <= Members(src.states) && Members(old(dst.states)) <= Members(dst.states)
  {
    ghost var before := src.tmp;
    done := DupTraverse(src, dst, start, from, j, {});
    tmp := src.tmp;
    src.tmp := src.tmp - {stop};
    assert start in Members(src.states);
    forall u | u in tmp ensures u in j.D || u == stop { assert GoodDup(j, tmp, Members(dst.states), dst.fresh_, u); }
    assert AllDone(j, tmp, done);
    ClearTraverse(src, start);
    forall a | a in j.F && a.from in tmp.Keys - {stop} ensures a.to in tmp { assert Finished(j, done, a.from); }
    AllMarksCleared(j, src == dst, src.arcs, tmp.Keys - {stop}, src.tmp.Keys);
    assert src.tmp.Keys == {};
  }

  /** Duplicate the fragment of `src` from `start` to `stop`, with the inner states `I`,
      stringing the duplicate in `dst` from `from` to `to`. */
  method DupNfa(src: Nfa, dst: Nfa, start: nat, stop: nat, from: nat, to: nat, ghost I: set<nat>)
    returns (ghost R: set<nat>, ghost no: map<nat, nat>, ghost J: set<nat>)
    requires src.Valid() && dst.Valid() && src.Clean() && from in dst.states && to in dst.states
    requires start == stop || (Enclosed(src.arcs, I, start, stop) && I + {start, stop} <= Members(src.states))
    requires src == dst ==> from != start && from !in I
    modifies src`tmp, dst`arcs, dst`states, dst`fresh_, dst`no, dst`nstates
    ensures src.Valid() && dst.Valid() && src.Clean()
    ensures Members(old(src.states)) <= Members(src.states) && Members(old(dst.states)) <= Members(dst.states)
    ensures start == stop ==> dst.arcs == old(dst.arcs) + {EmptyArc(from, to)}
    ensures start != stop ==>
      Duplicated(old(src.arcs), I, start, stop, old(dst.arcs), from, to, R, no, J, old(dst.fresh_), dst.fresh_, dst.arcs)
    ensures start != stop ==> J <= Members(dst.states)
  {
    R, no, J := {}, map[], {};
    if start == stop {
      dst.NewArc(Empty, 0, from, to);
      return;
    }
    ghost var A, D := src.arcs, I + {start};
    ghost var F := set a | a in A && a.from in D;
    ghost var j := Job(F, D, start, stop, from, to, dst.fresh_, dst.arcs);
    src.tmp := src.tmp[stop := to];
    assert Renamed({}, src.tmp) == {};
    ghost var tmp, done := DupMarked(src, dst, start, stop, from, to, I, j);
    MarksTellCopy(j, src == dst, I, A, tmp, Members(dst.states), dst.fresh_, dst.arcs, done);
    no := Inner(tmp, start, stop);
    R, J := tmp.Keys - {stop}, no.Values;
    forall u | u in no ensures no[u] in Members(dst.states) { assert GoodDup(j, tmp, Members(dst.states), dst.fresh_, u); }
  }
}

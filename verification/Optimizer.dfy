/** `optimize`: cleanup, EMPTY elimination, constraint elimination, cleanup,
    analysis; and what it leaves behind. */
module Optimizer {
  import opened Automaton
  import opened Surgery
  import opened NfaModel
  import opened Empties
  import opened Weights
  import opened Constraints
  import opened Cleanup

  // ----- relabelling one arc

  lemma {:induction false} SwapArcEnds(x: Frame, A: set<Arc>, w: seq<int>, s: nat, i: int, n: nat, a: Arc, b: Arc)
    requires 0 <= i <= |w|
    requires a.from == b.from && a.to == b.to && Width(x, a) == Width(x, b)
    requires forall v: seq<int>, k | 0 <= k <= |v| :: Can(x, a, v, k) <==> Can(x, b, v, k)
    requires Ends(x, A, w, s, i, n)
    ensures Ends(x, A - {a} + {b}, w, s, i, n)
    decreases n
  {
    if n > 0 {
      var c := PathFirst(x, A, w, s, i, x.post, |w|, n);
      SwapArcEnds(x, A, w, c.to, i + Width(x, c), n - 1, a, b);
      PathCons(x, A - {a} + {b}, w, if c == a then b else c, i, x.post, |w|, n - 1);
    }
  }

  /** An arc may be replaced by one that is followed in just the same way. */
  lemma SwapArc(x: Frame, A: set<Arc>, a: Arc, b: Arc)
    requires a in A && a.from == b.from && a.to == b.to && Width(x, a) == Width(x, b)
    requires forall y: Frame, v: seq<int>, k | Like(x, y) && 0 <= k <= |v| :: Can(y, a, v, k) <==> Can(y, b, v, k)
    ensures SameLanguage(x, A, A - {a} + {b})
  {
    var B := A - {a} + {b};
    forall y: Frame, w | Like(x, y) ensures Accepts(y, A, w) <==> Accepts(y, B, w) {
      if Accepts(y, A, w) {
        var n: nat :| Ends(y, A, w, y.pre, 0, n);
        SwapArcEnds(y, A, w, y.pre, 0, n, a, b);
      }
      if Accepts(y, B, w) {
        var n: nat :| Ends(y, B, w, y.pre, 0, n);
        SwapArcEnds(y, B, w, y.pre, 0, n, b, a);
        assert Ends(y, B - {b} + {a}, w, y.pre, 0, n);
        AcceptsGrow(y, B - {b} + {a}, A, w);
      }
    }
  }

  // ----- pulling back and pushing forward until nothing moves

  /** One pass over the arcs that are there when it starts, and perhaps over some that it makes. */
  method PullPass(nfa: Nfa, bound: Bound) returns (progress: bool)
    requires nfa.Valid() && Pullable(nfa.Ctx(), nfa.arcs) && (bound.Unbounded? ==> Ranked(nfa.arcs))
    modifies nfa`states, nfa`arcs, nfa`fresh_, nfa`no, nfa`nstates
    ensures nfa.Valid() && Pullable(nfa.Ctx(), nfa.arcs)
    ensures SameLanguage(nfa.Ctx(), old(nfa.arcs), nfa.arcs) && Labels(nfa.arcs) <= Labels(old(nfa.arcs))
    ensures !progress ==> nfa.arcs == old(nfa.arcs) && forall a :: a in nfa.arcs && Back(a) ==> nfa.Flagged(a.from)
    ensures progress ==> Lowers(old(nfa.arcs), nfa.arcs)
  {
    ghost var x, A := nfa.Ctx(), nfa.arcs;
    ghost var w := SomeWeights(A, bound);
    progress := false;
    var todo, more: nat := (set a | a in nfa.arcs && Back(a)), if bound.AtMost? then bound.rounds else 0;
    while todo != {}
      invariant nfa.Valid() && Pullable(x, nfa.arcs)
      invariant SameLanguage(x, A, nfa.arcs) && Labels(nfa.arcs) <= Labels(A)
      invariant forall a :: a in todo ==> Back(a)
      invariant !progress ==> nfa.arcs == A && forall a :: a in A && Back(a) && a !in todo ==> nfa.Flagged(a.from)
      invariant (progress ==> Lowers(A, nfa.arcs)) && (bound.Unbounded? ==> Weighted(nfa.arcs, w))
      decreases if bound.Unbounded? then Mass(nfa.arcs, w) else more, todo
    {
      var a :| a in todo;
      ghost var B := nfa.arcs;
      var done;
      done, todo, more, w := PullStep(nfa, a, bound, todo - {a}, more, w);
      SameLanguageTransitive(x, A, B, nfa.arcs);
      if done {
        if progress { LowersTransitive(A, B, nfa.arcs); }
        progress := true;
      }
    }
  }

  /** One arc of a pass, and what the pass comes upon afterwards. */
  method PullStep(nfa: Nfa, a: Arc, bound: Bound, todo: set<Arc>, more: nat, ghost w: nat -> nat)
    returns (done: bool, todo': set<Arc>, more': nat, ghost w': nat -> nat)
    requires nfa.Valid() && Pullable(nfa.Ctx(), nfa.arcs) && Back(a) && (bound.Unbounded? ==> Weighted(nfa.arcs, w))
    modifies nfa`states, nfa`arcs, nfa`fresh_, nfa`no, nfa`nstates
    ensures nfa.Valid() && Pullable(nfa.Ctx(), nfa.arcs)
    ensures SameLanguage(nfa.Ctx(), old(nfa.arcs), nfa.arcs) && Labels(nfa.arcs) <= Labels(old(nfa.arcs))
    ensures !done ==> nfa.arcs == old(nfa.arcs) && todo' == todo && more' == more && w' == w && (a in nfa.arcs ==> nfa.Flagged(a.from))
    ensures done ==> Lowers(old(nfa.arcs), nfa.arcs)
    ensures bound.Unbounded? ==> Weighted(nfa.arcs, w') && (done ==> Mass(nfa.arcs, w') < Mass(old(nfa.arcs), w))
    ensures forall b :: b in todo' ==> b in todo || Back(b)
    ensures more' <= more && (bound.AtMost? && more' == more ==> todo' == todo)
  {
    done, todo', more', w' := false, todo, more, w;
    if a in nfa.arcs {
      ghost var B := nfa.arcs;
      done := Pull(nfa, a);
      if done {
        w' := LighterIf(B, nfa.arcs, w, bound);
        todo', more' := ComeUpon(todo, (set b | b in nfa.arcs && Back(b)), bound, more);
      }
    }
  }

  lemma SomeWeights(A: set<Arc>, bound: Bound) returns (w: nat -> nat)
    requires bound.Unbounded? ==> Ranked(A)
    ensures bound.Unbounded? ==> Weighted(A, w)
  {
    w := (s: nat) => 0;
    if bound.Unbounded? {
      w := WeightsExist(A);
    }
  }

  lemma LighterIf(A: set<Arc>, B: set<Arc>, w: nat -> nat, bound: Bound) returns (v: nat -> nat)
    requires bound.Unbounded? ==> Lowers(A, B) && Weighted(A, w)
    ensures bound.Unbounded? ==> Weighted(B, v) && Mass(B, v) < Mass(A, w)
  {
    v := w;
    if bound.Unbounded? {
      v := Lighter(A, B, w);
    }
  }

  method PlainBegin(nfa: Nfa, a: Arc)
    requires nfa.Valid() && a in nfa.arcs && a.kind == Begin && a.from == nfa.pre
    requires Shaped(nfa.Ctx(), nfa.arcs) && Legal(nfa.Ctx(), nfa.arcs)
    modifies nfa`arcs
    ensures nfa.Valid() && SameLanguage(nfa.Ctx(), old(nfa.arcs), nfa.arcs)
    ensures Shaped(nfa.Ctx(), nfa.arcs) && Legal(nfa.Ctx(), nfa.arcs)
    ensures exists c :: nfa.arcs == old(nfa.arcs) - {a} + {Arc(Plain, c, a.from, a.to)} && (c == nfa.bos.0 || c == nfa.bos.1)
  {
    var co := if a.co == 0 then nfa.bos.0 else nfa.bos.1;
    ghost var b := Arc(Plain, co, a.from, a.to);
    SwapArc(nfa.Ctx(), nfa.arcs, a, b);
    nfa.NewArc(Plain, co, a.from, a.to);
    nfa.FreeArc(a);
    assert nfa.arcs == old(nfa.arcs) - {a} + {b};
  }

  /** Give the '^' arcs left at pre their pseudocolours. */
  method PlainBegins(nfa: Nfa)
    requires nfa.Valid() && Pullable(nfa.Ctx(), nfa.arcs)
    requires forall a :: a in nfa.arcs && Back(a) ==> a.from == nfa.pre && a.kind == Begin
    modifies nfa`arcs
    ensures nfa.Valid() && SameLanguage(nfa.Ctx(), old(nfa.arcs), nfa.arcs)
    ensures Shaped(nfa.Ctx(), nfa.arcs) && Legal(nfa.Ctx(), nfa.arcs) && NoEmpty(nfa.arcs)
    ensures NoPlainEos(nfa.Ctx(), old(nfa.arcs)) ==> NoPlainEos(nfa.Ctx(), nfa.arcs)
    ensures forall a :: a in nfa.arcs ==> !Back(a)
    ensures forall a :: a in nfa.arcs && a.kind != Plain ==> a in old(nfa.arcs)
    ensures Labels(nfa.arcs) <= Labels(old(nfa.arcs)) + EndMarks(nfa.Ctx())
  {
    ghost var x, A := nfa.Ctx(), nfa.arcs;
    var todo := set a | a in nfa.arcs && Back(a);
    while todo != {}
      invariant nfa.Valid() && SameLanguage(x, A, nfa.arcs) && todo <= nfa.arcs
      invariant Shaped(x, nfa.arcs) && Legal(x, nfa.arcs)
      invariant forall a :: a in nfa.arcs ==> a in A || (a.kind == Plain && (a.co == x.bos0 || a.co == x.bos1))
      invariant forall a :: a in nfa.arcs && Back(a) ==> a in todo
      invariant forall a :: a in todo ==> a.from == nfa.pre && a.kind == Begin
      decreases todo
    {
      var a :| a in todo;
      ghost var B := nfa.arcs;
      PlainBegin(nfa, a);
      SameLanguageTransitive(x, A, B, nfa.arcs);
      todo := todo - {a};
    }
  }

  /** Pull back constraints until a pass makes no progress. Where the arcs other than PLAIN ones have
      no cycle, that comes to an end. */
  method Pullback(nfa: Nfa, bound: Bound) returns (finished: bool)
    requires nfa.Valid() && Pullable(nfa.Ctx(), nfa.arcs) && (bound.Unbounded? ==> Ranked(nfa.arcs))
    modifies nfa`states, nfa`arcs, nfa`fresh_, nfa`no, nfa`nstates
    ensures nfa.Valid() && SameLanguage(nfa.Ctx(), old(nfa.arcs), nfa.arcs)
    ensures Shaped(nfa.Ctx(), nfa.arcs) && Legal(nfa.Ctx(), nfa.arcs) && NoEmpty(nfa.arcs)
    ensures NoPlainEos(nfa.Ctx(), old(nfa.arcs)) ==> NoPlainEos(nfa.Ctx(), nfa.arcs)
    ensures finished ==> forall a :: a in nfa.arcs ==> !Back(a)
    ensures bound.Unbounded? ==> finished && Ranked(nfa.arcs)
    ensures Labels(nfa.arcs) <= Labels(old(nfa.arcs)) + EndMarks(nfa.Ctx())
  {
    ghost var x, A := nfa.Ctx(), nfa.arcs;
    ghost var w := SomeWeights(A, bound);
    finished := false;
    var left := if bound.AtMost? then bound.rounds else 0;
    while !finished && (bound.Unbounded? || left > 0)
      invariant nfa.Valid() && Pullable(x, nfa.arcs)
      invariant SameLanguage(x, A, nfa.arcs) && Labels(nfa.arcs) <= Labels(A)
      invariant finished ==> forall a :: a in nfa.arcs && Back(a) ==> nfa.Flagged(a.from)
      invariant bound.Unbounded? ==> Weighted(nfa.arcs, w)
      decreases if bound.Unbounded? then Mass(nfa.arcs, w) else left, if finished then 0 else 1
    {
      ghost var B := nfa.arcs;
      if bound.Unbounded? { WeightsClimb(B, w); }
      var progress := PullPass(nfa, bound);
      SameLanguageTransitive(x, A, B, nfa.arcs);
      if progress { w := LighterIf(B, nfa.arcs, w, bound); }
      finished := !progress;
      if bound.AtMost? {
        left := left - 1;
      }
    }
    if bound.Unbounded? { WeightsClimb(nfa.arcs, w); }
    assert NoPlainEos(x, A) ==> NoPlainEos(x, nfa.arcs) by { EosLabels(x, A, nfa.arcs); }
    if finished {
      ghost var B := nfa.arcs;
      PlainBegins(nfa);
      SameLanguageTransitive(x, A, B, nfa.arcs);
      if Ranked(B) { RankedFewer(B, nfa.arcs); }
    }
  }

  lemma EosLabels(x: Frame, A: set<Arc>, B: set<Arc>)
    requires Labels(B) <= Labels(A)
    ensures NoPlainEos(x, A) ==> NoPlainEos(x, B)
    ensures NoEmpty(A) ==> NoEmpty(B)
    ensures (forall a :: a in A ==> !Back(a)) ==> (forall b :: b in B ==> !Back(b))
  {
    forall b | b in B ensures exists a :: a in A && a.kind == b.kind && a.co == b.co {
      assert (b.kind, b.co) in Labels(B);
      var a :| a in A && (a.kind, a.co) == (b.kind, b.co);
    }
  }

  method PushPass(nfa: Nfa, bound: Bound) returns (progress: bool)
    requires nfa.Valid() && Pushable(nfa.Ctx(), nfa.arcs) && (bound.Unbounded? ==> Ranked(nfa.arcs))
    modifies nfa`states, nfa`arcs, nfa`fresh_, nfa`no, nfa`nstates
    ensures nfa.Valid() && Pushable(nfa.Ctx(), nfa.arcs)
    ensures SameLanguage(nfa.Ctx(), old(nfa.arcs), nfa.arcs) && Labels(nfa.arcs) <= Labels(old(nfa.arcs))
    ensures !progress ==> nfa.arcs == old(nfa.arcs) && forall a :: a in nfa.arcs && Forth(a) ==> nfa.Flagged(a.to)
    ensures progress ==> LowersForth(old(nfa.arcs), nfa.arcs)
  {
    ghost var x, A := nfa.Ctx(), nfa.arcs;
    ghost var w := SomeMirrorWeights(A, bound);
    progress := false;
    var todo, more: nat := (set a | a in nfa.arcs && Forth(a)), if bound.AtMost? then bound.rounds else 0;
    while todo != {}
      invariant nfa.Valid() && Pushable(x, nfa.arcs)
      invariant SameLanguage(x, A, nfa.arcs) && Labels(nfa.arcs) <= Labels(A)
      invariant forall a :: a in todo ==> Forth(a)
      invariant !progress ==> nfa.arcs == A && forall a :: a in A && Forth(a) && a !in todo ==> nfa.Flagged(a.to)
      invariant (progress ==> LowersForth(A, nfa.arcs)) && (bound.Unbounded? ==> Weighted(Mirror(nfa.arcs), w))
      decreases if bound.Unbounded? then Mass(Mirror(nfa.arcs), w) else more, todo
    {
      var a :| a in todo;
      ghost var B := nfa.arcs;
      var done;
      done, todo, more, w := PushStep(nfa, a, bound, todo - {a}, more, w);
      SameLanguageTransitive(x, A, B, nfa.arcs);
      if done {
        if progress { LowersForthTransitive(A, B, nfa.arcs); }
        progress := true;
      }
    }
  }

  /** One arc of a pass, and what the pass comes upon afterwards. */
  method PushStep(nfa: Nfa, a: Arc, bound: Bound, todo: set<Arc>, more: nat, ghost w: nat -> nat)
    returns (done: bool, todo': set<Arc>, more': nat, ghost w': nat -> nat)
    requires nfa.Valid() && Pushable(nfa.Ctx(), nfa.arcs) && Forth(a) && (bound.Unbounded? ==> Weighted(Mirror(nfa.arcs), w))
    modifies nfa`states, nfa`arcs, nfa`fresh_, nfa`no, nfa`nstates
    ensures nfa.Valid() && Pushable(nfa.Ctx(), nfa.arcs)
    ensures SameLanguage(nfa.Ctx(), old(nfa.arcs), nfa.arcs) && Labels(nfa.arcs) <= Labels(old(nfa.arcs))
    ensures !done ==> nfa.arcs == old(nfa.arcs) && todo' == todo && more' == more && w' == w && (a in nfa.arcs ==> nfa.Flagged(a.to))
    ensures done ==> LowersForth(old(nfa.arcs), nfa.arcs)
    ensures bound.Unbounded? ==> Weighted(Mirror(nfa.arcs), w') && (done ==> Mass(Mirror(nfa.arcs), w') < Mass(Mirror(old(nfa.arcs)), w))
    ensures forall b :: b in todo' ==> b in todo || Forth(b)
    ensures more' <= more && (bound.AtMost? && more' == more ==> todo' == todo)
  {
    done, todo', more', w' := false, todo, more, w;
    if a in nfa.arcs {
      ghost var B := nfa.arcs;
      done := Push(nfa, a);
      if done {
        w' := LighterIf(Mirror(B), Mirror(nfa.arcs), w, bound);
        todo', more' := ComeUpon(todo, (set b | b in nfa.arcs && Forth(b)), bound, more);
      }
    }
  }

  lemma SomeMirrorWeights(A: set<Arc>, bound: Bound) returns (w: nat -> nat)
    requires bound.Unbounded? ==> Ranked(A)
    ensures bound.Unbounded? ==> Weighted(Mirror(A), w)
  {
    if bound.Unbounded? { RankedMirror(A); }
    w := SomeWeights(Mirror(A), bound);
  }

  lemma MirrorWeightsClimb(A: set<Arc>, w: nat -> nat)
    requires Weighted(Mirror(A), w) && NoEmpty(A)
    ensures Ranked(A)
  {
    forall b | b in Mirror(A) ensures b.kind != Empty { InMirror(A, b); }
    WeightsClimb(Mirror(A), w);
    RankedMirror(Mirror(A));
    MirrorTwice(A);
  }

  method PlainEnd(nfa: Nfa, a: Arc)
    requires nfa.Valid() && a in nfa.arcs && a.kind == End && a.to == nfa.post
    requires Shaped(nfa.Ctx(), nfa.arcs) && Legal(nfa.Ctx(), nfa.arcs)
    modifies nfa`arcs
    ensures nfa.Valid() && SameLanguage(nfa.Ctx(), old(nfa.arcs), nfa.arcs)
    ensures Shaped(nfa.Ctx(), nfa.arcs) && Legal(nfa.Ctx(), nfa.arcs)
    ensures exists c :: nfa.arcs == old(nfa.arcs) - {a} + {Arc(Plain, c, a.from, a.to)} && (c == nfa.eos.0 || c == nfa.eos.1)
  {
    var co := if a.co == 0 then nfa.eos.0 else nfa.eos.1;
    ghost var b := Arc(Plain, co, a.from, a.to);
    SwapArc(nfa.Ctx(), nfa.arcs, a, b);
    nfa.NewArc(Plain, co, a.from, a.to);
    nfa.FreeArc(a);
    assert nfa.arcs == old(nfa.arcs) - {a} + {b};
  }

  /** Give the '$' arcs left at post their pseudocolours. */
  method PlainEnds(nfa: Nfa)
    requires nfa.Valid() && Pushable(nfa.Ctx(), nfa.arcs)
    requires forall a :: a in nfa.arcs && Forth(a) ==> a.to == nfa.post && a.kind == End
    modifies nfa`arcs
    ensures nfa.Valid() && SameLanguage(nfa.Ctx(), old(nfa.arcs), nfa.arcs)
    ensures Shaped(nfa.Ctx(), nfa.arcs) && Legal(nfa.Ctx(), nfa.arcs) && NoEmpty(nfa.arcs)
    ensures (forall a :: a in old(nfa.arcs) ==> !Back(a)) ==> (forall a :: a in nfa.arcs ==> !Back(a))
    ensures forall a :: a in nfa.arcs ==> !Forth(a)
    ensures Labels(nfa.arcs) <= Labels(old(nfa.arcs)) + EndMarks(nfa.Ctx())
  {
    ghost var x, A := nfa.Ctx(), nfa.arcs;
    var todo := set a | a in nfa.arcs && Forth(a);
    while todo != {}
      invariant nfa.Valid() && SameLanguage(x, A, nfa.arcs) && todo <= nfa.arcs
      invariant Shaped(x, nfa.arcs) && Legal(x, nfa.arcs)
      invariant forall a :: a in nfa.arcs ==> a in A || (a.kind == Plain && (a.co == x.eos0 || a.co == x.eos1))
      invariant forall a :: a in nfa.arcs && Forth(a) ==> a in todo
      invariant forall a :: a in todo ==> a.to == nfa.post && a.kind == End
      decreases todo
    {
      var a :| a in todo;
      ghost var B := nfa.arcs;
      PlainEnd(nfa, a);
      SameLanguageTransitive(x, A, B, nfa.arcs);
      todo := todo - {a};
    }
  }

  /** Push forward constraints until a pass makes no progress; the mirror image of `Pullback`. */
  method Pushfwd(nfa: Nfa, bound: Bound) returns (finished: bool)
    requires nfa.Valid() && Pushable(nfa.Ctx(), nfa.arcs) && (bound.Unbounded? ==> Ranked(nfa.arcs))
    modifies nfa`states, nfa`arcs, nfa`fresh_, nfa`no, nfa`nstates
    ensures nfa.Valid() && SameLanguage(nfa.Ctx(), old(nfa.arcs), nfa.arcs)
    ensures Shaped(nfa.Ctx(), nfa.arcs) && Legal(nfa.Ctx(), nfa.arcs) && NoEmpty(nfa.arcs)
    ensures (forall a :: a in old(nfa.arcs) ==> !Back(a)) ==> (forall a :: a in nfa.arcs ==> !Back(a))
    ensures finished ==> forall a :: a in nfa.arcs ==> !Forth(a)
    ensures bound.Unbounded? ==> finished
    ensures Labels(nfa.arcs) <= Labels(old(nfa.arcs)) + EndMarks(nfa.Ctx())
  {
    ghost var x, A := nfa.Ctx(), nfa.arcs;
    ghost var w := SomeMirrorWeights(A, bound);
    finished := false;
    var left := if bound.AtMost? then bound.rounds else 0;
    while !finished && (bound.Unbounded? || left > 0)
      invariant nfa.Valid() && Pushable(x, nfa.arcs)
      invariant SameLanguage(x, A, nfa.arcs) && Labels(nfa.arcs) <= Labels(A)
      invariant finished ==> forall a :: a in nfa.arcs && Forth(a) ==> nfa.Flagged(a.to)
      invariant bound.Unbounded? ==> Weighted(Mirror(nfa.arcs), w)
      decreases if bound.Unbounded? then Mass(Mirror(nfa.arcs), w) else left, if finished then 0 else 1
    {
      ghost var B := nfa.arcs;
      if bound.Unbounded? { MirrorWeightsClimb(B, w); }
      var progress := PushPass(nfa, bound);
      SameLanguageTransitive(x, A, B, nfa.arcs);
      if progress { w := LighterIf(Mirror(B), Mirror(nfa.arcs), w, bound); }
      finished := !progress;
      if bound.AtMost? {
        left := left - 1;
      }
    }
    EosLabels(x, A, nfa.arcs);
    if finished {
      ghost var B := nfa.arcs;
      PlainEnds(nfa);
      SameLanguageTransitive(x, A, B, nfa.arcs);
    }
  }

  // ----- the whole optimizer

  datatype Info = Nothing | Impossible | EmptyMatch

  /** Two arcs in a row lead from pre to post. */
  ghost predicate TwoArcs(x: Frame, A: set<Arc>) {
    exists a, b :: a in A && b in A && a.from == x.pre && a.to == b.from && b.to == x.post
  }

  /** What can be said of an optimized NFA. */
  method Analyze(nfa: Nfa) returns (info: Info)
    requires nfa.Valid()
    ensures info == Impossible <==> OutArcs(nfa.arcs, nfa.pre) == {}
    ensures info == EmptyMatch <==> TwoArcs(nfa.Ctx(), nfa.arcs)
  {
    var outs := OutArcs(nfa.arcs, nfa.pre);
    assert forall a :: a in nfa.arcs && a.from == nfa.pre ==> a in outs;
    if outs == {} {
      return Impossible;
    }
    while outs != {}
      invariant outs <= OutArcs(nfa.arcs, nfa.pre)
      invariant forall a, b :: a in OutArcs(nfa.arcs, nfa.pre) - outs && b in nfa.arcs && a.to == b.from ==> b.to != nfa.post
      decreases outs
    {
      var a :| a in outs;
      var nexts := OutArcs(nfa.arcs, a.to);
      while nexts != {}
        invariant nexts <= OutArcs(nfa.arcs, a.to)
        invariant forall b :: b in OutArcs(nfa.arcs, a.to) - nexts ==> b.to != nfa.post
        decreases nexts
      {
        var b :| b in nexts;
        if b.to == nfa.post {
          return EmptyMatch;
        }
        nexts := nexts - {b};
      }
      assert forall b :: b in nfa.arcs && a.to == b.from ==> b in OutArcs(nfa.arcs, a.to);
      outs := outs - {a};
    }
    assert forall a :: a in nfa.arcs && a.from == nfa.pre ==> a in OutArcs(nfa.arcs, nfa.pre);
    return Nothing;
  }

  lemma NoPathNoWord(x: Frame, A: set<Arc>)
    requires !Joined(A, x.pre, x.post)
    ensures forall y: Frame, w | Like(x, y) :: !Accepts(y, A, w)
  {
    forall y: Frame, w | Like(x, y) ensures !Accepts(y, A, w) {
      if Accepts(y, A, w) {
        var n: nat :| Ends(y, A, w, y.pre, 0, n);
        EndsJoined(y, A, w, y.pre, 0, n);
      }
    }
  }

  lemma ImpossibleMeansNoPath(x: Frame, A: set<Arc>, S: set<nat>)
    requires x.Distinct() && Shaped(x, A) && AllOnPath(x, A, S) && forall a :: a in A ==> a.to in S
    ensures OutArcs(A, x.pre) == {} <==> !Joined(A, x.pre, x.post)
  {
    if Joined(A, x.pre, x.post) {
      var n: nat :| Leads(A, x.pre, x.post, n);
      var a :| a in A && a.from == x.pre && Leads(A, a.to, x.post, n - 1);
      assert a in OutArcs(A, x.pre);
    }
    if OutArcs(A, x.pre) != {} {
      var a :| a in OutArcs(A, x.pre);
      assert OnPath(x, A, a.to);
      LeadsFirst(A, a, x.post);
    }
  }

  /** So many passes are enough to eliminate the EMPTY arcs, which are acyclic. */
  ghost predicate EnoughRounds(A: set<Arc>, rounds: nat, S: set<nat>, rank: nat -> nat, top: nat) {
    Acyclic(A, S, rank, top) && rounds > Total(EmptiesOf(A), Cost(rank, top, |S| + 1))
  }

  ghost predicate Enough(A: set<Arc>, bound: Bound) {
    bound.Unbounded? || exists S, rank, top :: EnoughRounds(A, bound.rounds, S, rank, top)
  }

  lemma FewerRounds(A: set<Arc>, B: set<Arc>, rounds: nat, S: set<nat>, rank: nat -> nat, top: nat)
    requires B <= A && EnoughRounds(A, rounds, S, rank, top)
    ensures EnoughRounds(B, rounds, S, rank, top)
  {
    assert EmptiesOf(B) <= EmptiesOf(A) + {};
    TotalWithin(EmptiesOf(B), EmptiesOf(A), {}, Cost(rank, top, |S| + 1));
  }

  /** What EMPTY elimination needs to know, from what is known of the arcs. */
  lemma RoundsFor(A: set<Arc>, B: set<Arc>, bound: Bound) returns (S: set<nat>, rank: nat -> nat, top: nat)
    requires B <= A && (bound.Unbounded? ==> Ranked(A))
    ensures bound.Unbounded? ==> Ranked(B) && Acyclic(B, S, rank, top)
    ensures bound.AtMost? && Enough(A, bound) ==> EnoughRounds(B, bound.rounds, S, rank, top)
  {
    S, rank, top := {}, (n: nat) => n, 0;
    if bound.Unbounded? {
      RankedFewer(A, B);
      S, rank, top := RankedAcyclic(B);
    } else if Enough(A, bound) {
      S, rank, top :| EnoughRounds(A, bound.rounds, S, rank, top);
      FewerRounds(A, B, bound.rounds, S, rank, top);
    }
  }

  lemma {:induction false} PlainReads(x: Frame, A: set<Arc>, w: seq<int>, s: nat, i: int, n: nat)
    requires 0 <= i <= |w| && (forall a :: a in A ==> a.kind == Plain) && Ends(x, A, w, s, i, n)
    ensures n == |w| - i
    decreases n
  {
    if n > 0 {
      var a := PathFirst(x, A, w, s, i, x.post, |w|, n);
      PlainReads(x, A, w, a.to, i + 1, n - 1);
    }
  }

  /** With plain arcs only, two of them lead from pre to post exactly if nothing but the symbols
      before and after a match need be read: the empty string can be matched. */
  lemma EmptyMatchMeans(x: Frame, A: set<Arc>)
    requires forall a :: a in A ==> a.kind == Plain
    ensures TwoArcs(x, A) <==> exists w :: |w| == 2 && Accepts(x, A, w)
  {
    if a, b :| a in A && b in A && a.from == x.pre && a.to == b.from && b.to == x.post {
      var w := [a.co, b.co];
      PathCons(x, A, w, b, 1, x.post, 2, 0);
      PathCons(x, A, w, a, 0, x.post, 2, 1);
      assert Ends(x, A, w, x.pre, 0, 2);
    }
    if w :| |w| == 2 && Accepts(x, A, w) {
      var n: nat :| Ends(x, A, w, x.pre, 0, n);
      PlainReads(x, A, w, x.pre, 0, n);
      var a := PathFirst(x, A, w, x.pre, 0, x.post, 2, 2);
      var b := PathFirst(x, A, w, a.to, 1, x.post, 2, 1);
    }
  }

  lemma StillRanked(A: set<Arc>, B: set<Arc>)
    requires Ranked(A) && CopiesOnly(A, B)
    ensures Ranked(B)
  {
    var rank: nat -> nat :| Climbs(A, rank);
    assert Climbs(B, rank);
  }

  /** The first clean-up, and what replaces the empty arcs and the constraints. */
  method Eliminate(nfa: Nfa, bound: Bound) returns (finished: bool)
    requires nfa.Valid() && nfa.Clean() && Shaped(nfa.Ctx(), nfa.arcs) && Ordinary(nfa.Ctx(), nfa.arcs)
    requires bound.Unbounded? ==> Ranked(nfa.arcs)
    modifies nfa`states, nfa`arcs, nfa`fresh_, nfa`no, nfa`nstates, nfa`tmp
    ensures SameLanguage(nfa.Ctx(), old(nfa.arcs), nfa.arcs)
    ensures nfa.Valid() && Shaped(nfa.Ctx(), nfa.arcs) && Legal(nfa.Ctx(), nfa.arcs)
    ensures Labels(nfa.arcs) <= Labels(old(nfa.arcs)) + EndMarks(nfa.Ctx())
    ensures finished ==> nfa.Clean() && forall a :: a in nfa.arcs ==> a.kind == Plain || a.kind == Lacon
    ensures bound.Unbounded? ==> finished
    ensures old(Enough(nfa.arcs, bound)) ==> NoEmpty(nfa.arcs)
  {
    ghost var x, A := nfa.Ctx(), nfa.arcs;
    Clean(nfa);
    ghost var B := nfa.arcs;
    assert Labels(B) <= Labels(A);
    ghost var S, rank, top := RoundsFor(A, B, bound);
    finished := FixEmpties(nfa, bound, S, rank, top);
    ghost var C := nfa.arcs;
    if bound.Unbounded? { StillRanked(B, C); }
    SameLanguageTransitive(x, A, B, C);
    OrdinaryLabels(x, A, C);
    if !finished {
      return;
    }
    assert NoEmpty(C) by { assert forall a :: a in C && a.kind == Empty ==> a in EmptiesOf(C); }
    finished := Constrain(nfa, bound);
    SameLanguageTransitive(x, A, C, nfa.arcs);
  }

  /** Optimize the NFA. When it finishes, only Plain and Lacon arcs are left and the
      accepted words are the same; `Impossible` is reported exactly if no path leads
      from pre to post, and then no word was ever accepted; without lookahead constraints,
      `EmptyMatch` exactly if the empty string can be matched. Where the arcs other than PLAIN
      ones have no cycle, it finishes without a bound on the passes; with one, EMPTY arcs that
      are acyclic are gone if the passes are enough for them. */
  method Optimize(nfa: Nfa, bound: Bound) returns (finished: bool, info: Info)
    requires nfa.Valid() && nfa.Clean() && Shaped(nfa.Ctx(), nfa.arcs) && Ordinary(nfa.Ctx(), nfa.arcs)
    requires bound.Unbounded? ==> Ranked(nfa.arcs)
    modifies nfa`states, nfa`arcs, nfa`fresh_, nfa`no, nfa`nstates, nfa`tmp
    ensures SameLanguage(nfa.Ctx(), old(nfa.arcs), nfa.arcs)
    ensures nfa.Valid() && Shaped(nfa.Ctx(), nfa.arcs) && Legal(nfa.Ctx(), nfa.arcs)
    ensures Labels(nfa.arcs) <= Labels(old(nfa.arcs)) + EndMarks(nfa.Ctx())
    ensures finished ==> nfa.Clean() && nfa.Numbered()
    ensures finished ==> forall a :: a in nfa.arcs ==> a.kind == Plain || (a.kind == Lacon && a.from != nfa.pre && a.to != nfa.post)
    ensures finished ==> AllOnPath(nfa.Ctx(), nfa.arcs, Members(nfa.states))
    ensures finished ==> (info == Impossible <==> !Joined(nfa.arcs, nfa.pre, nfa.post))
    ensures finished && info == Impossible ==> forall y: Frame, w | Like(nfa.Ctx(), y) :: !Accepts(y, old(nfa.arcs), w)
    ensures finished && (forall a :: a in nfa.arcs ==> a.kind == Plain) ==>
      (info == EmptyMatch <==> exists w :: |w| == 2 && Accepts(nfa.Ctx(), old(nfa.arcs), w))
    ensures bound.Unbounded? ==> finished
    ensures old(Enough(nfa.arcs, bound)) ==> NoEmpty(nfa.arcs)
  {
    ghost var x, A := nfa.Ctx(), nfa.arcs;
    info := Nothing;
    finished := Eliminate(nfa, bound);
    if !finished {
      return;
    }
    ghost var B := nfa.arcs;
    Clean(nfa);
    SameLanguageTransitive(x, A, B, nfa.arcs);
    info := Analyze(nfa);
    assert forall a :: a in nfa.arcs ==> a.to in Members(nfa.states);
    ImpossibleMeansNoPath(x, nfa.arcs, Members(nfa.states));
    if info == Impossible {
      NoPathNoWord(x, nfa.arcs);
    }
    if forall a :: a in nfa.arcs ==> a.kind == Plain {
      EmptyMatchMeans(x, nfa.arcs);
      assert forall w :: Accepts(x, A, w) <==> Accepts(x, nfa.arcs, w);
    }
  }

  /** The constraint-elimination part. */
  method Constrain(nfa: Nfa, bound: Bound) returns (finished: bool)
    requires nfa.Valid() && nfa.Clean() && (bound.Unbounded? ==> Ranked(nfa.arcs))
    requires Pullable(nfa.Ctx(), nfa.arcs) && NoPlainEos(nfa.Ctx(), nfa.arcs)
    modifies nfa`states, nfa`arcs, nfa`fresh_, nfa`no, nfa`nstates
    ensures nfa.Valid() && SameLanguage(nfa.Ctx(), old(nfa.arcs), nfa.arcs)
    ensures Shaped(nfa.Ctx(), nfa.arcs) && Legal(nfa.Ctx(), nfa.arcs)
    ensures finished ==> nfa.Clean() && forall a :: a in nfa.arcs ==> a.kind == Plain || a.kind == Lacon
    ensures Labels(nfa.arcs) <= Labels(old(nfa.arcs)) + EndMarks(nfa.Ctx())
    ensures NoEmpty(nfa.arcs) && (bound.Unbounded? ==> finished)
  {
    ghost var x, A := nfa.Ctx(), nfa.arcs;
    finished := Pullback(nfa, bound);
    ghost var B := nfa.arcs;
    if !finished {
      return;
    }
    finished := Pushfwd(nfa, bound);
    SameLanguageTransitive(x, A, B, nfa.arcs);
  }
}

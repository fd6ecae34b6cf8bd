/** `makesearch`: from an optimized NFA to one that finds matches anywhere. */
module SearchNfa {
  import opened Automaton
  import opened Surgery
  import opened NfaModel
  import opened Cleanup
  import opened Compaction

  /** The arcs accept `w` by a path that leaves pre at once and never comes back. */
  ghost predicate Proper(x: Frame, A: set<Arc>, w: seq<int>) {
    exists a, n: nat :: a in A && Leaves(x, A, w, a, n)
  }

  ghost predicate Leaves(x: Frame, A: set<Arc>, w: seq<int>, a: Arc, n: nat) {
    a.from == x.pre && a.to != x.pre && Can(x, a, w, 0) && Ends(x, A, w, a.to, Width(x, a), n)
  }

  /** Some arc leads from pre to `q`. */
  ghost predicate NextToPre(x: Frame, A: set<Arc>, q: nat) { exists a :: a in A && a.from == x.pre && a.to == q }

  ghost predicate OnlyFromPre(x: Frame, A: set<Arc>, q: nat) { forall a :: a in A && a.to == q ==> a.from == x.pre }

  /** Nothing comes back to pre, or to a state next to pre, once it is left. */
  ghost predicate OneWay(x: Frame, A: set<Arc>) {
    OnlyFromPre(x, A, x.pre) && forall q :: NextToPre(x, A, q) ==> OnlyFromPre(x, A, q)
  }

  function Loop(x: Frame, co: int): Arc { Arc(Plain, co, x.pre, x.pre) }

  /** The loops of an implicit leading `.*`: all full colours and both bos colours. */
  function Loops(x: Frame, colors: seq<int>): set<Arc> {
    (set co | co in colors :: Loop(x, co)) + {Loop(x, x.bos0), Loop(x, x.bos1)}
  }

  // ----- adding the loops

  lemma {:induction false} LoopsUnused(x: Frame, A: set<Arc>, L: set<Arc>, w: seq<int>, s: nat, i: int, n: nat)
    requires 0 <= i <= |w| && s != x.pre
    requires forall a :: a in A ==> a.to != x.pre
    requires forall a :: a in L ==> a.from == x.pre
    requires Ends(x, A + L, w, s, i, n)
    ensures Ends(x, A, w, s, i, n)
    decreases n
  {
    if n > 0 {
      var a := PathFirst(x, A + L, w, s, i, x.post, |w|, n);
      LoopsUnused(x, A, L, w, a.to, i + Width(x, a), n - 1);
      PathCons(x, A, w, a, i, x.post, |w|, n - 1);
    }
  }

  lemma ProperWithLoops(x: Frame, A: set<Arc>, L: set<Arc>, w: seq<int>)
    requires x.pre != x.post
    requires forall a :: a in A ==> a.to != x.pre
    requires forall a :: a in L ==> a.from == a.to == x.pre
    ensures Proper(x, A + L, w) <==> Accepts(x, A, w)
  {
    if Accepts(x, A, w) {
      var n: nat :| Ends(x, A, w, x.pre, 0, n);
      var a := PathFirst(x, A, w, x.pre, 0, x.post, |w|, n);
      PathGrow(x, A, A + L, w, a.to, Width(x, a), x.post, |w|, n - 1);
      assert Leaves(x, A + L, w, a, n - 1);
    }
    if Proper(x, A + L, w) {
      var a, n: nat :| a in A + L && Leaves(x, A + L, w, a, n);
      LoopsUnused(x, A, L, w, a.to, Width(x, a), n);
      PathCons(x, A, w, a, 0, x.post, |w|, n);
      assert Ends(x, A, w, x.pre, 0, n + 1);
    }
  }

  // ----- splitting a state

  /** The arcs into `s` that do not come from pre. */
  function Returning(x: Frame, A: set<Arc>, s: nat): set<Arc> { set a | a in A && a.to == s && a.from != x.pre }

  /** `s` keeps the arcs from pre; its double `z` gets the other arcs into it, and both
      have all its out-arcs. */
  function Split(x: Frame, A: set<Arc>, s: nat, z: nat): set<Arc> {
    var C := CopiedOuts(A, s, z);
    C - Returning(x, C, s) + set a | a in Returning(x, C, s) :: a.(to := z)
  }

  lemma {:induction false} SplitForward(x: Frame, A: set<Arc>, w: seq<int>, u: nat, i: int, n: nat, s: nat, z: nat)
    requires 0 <= i <= |w| && Untouched(A, z) && z != x.pre && z != x.post && s != x.pre && s != x.post
    requires forall a :: a in A ==> a.kind == Plain || a.kind == Lacon
    requires Ends(x, A, w, u, i, n)
    ensures Ends(x, Split(x, A, s, z), w, u, i, n)
    ensures u == s ==> Ends(x, Split(x, A, s, z), w, z, i, n)
    decreases n
  {
    if n > 0 {
      var B := Split(x, A, s, z);
      var C := CopiedOuts(A, s, z);
      var a := PathFirst(x, A, w, u, i, x.post, |w|, n);
      SplitForward(x, A, w, a.to, i + Width(x, a), n - 1, s, z);
      var b := if a in Returning(x, C, s) then a.(to := z) else a;
      assert b in B;
      PathCons(x, B, w, b, i, x.post, |w|, n - 1);
      if u == s {
        var a' := a.(from := z);
        assert a in OutArcs(A, s) && a' in C;
        var b' := if a'.to == s then a'.(to := z) else a';
        assert b' in B;
        PathCons(x, B, w, b', i, x.post, |w|, n - 1);
      }
    }
  }

  lemma {:induction false} SplitBackward(x: Frame, A: set<Arc>, w: seq<int>, u: nat, i: int, n: nat, s: nat, z: nat)
    requires 0 <= i <= |w| && Untouched(A, z) && z != x.pre && z != x.post && s != x.pre && s != x.post
    requires forall a :: a in A ==> a.kind == Plain || a.kind == Lacon
    requires Ends(x, Split(x, A, s, z), w, u, i, n)
    ensures Ends(x, A, w, if u == z then s else u, i, n)
    decreases n
  {
    if n > 0 {
      var B := Split(x, A, s, z);
      var C := CopiedOuts(A, s, z);
      var b := PathFirst(x, B, w, u, i, x.post, |w|, n);
      SplitBackward(x, A, w, b.to, i + Width(x, b), n - 1, s, z);
      var c := if b.to == z then b.(to := s) else b;
      assert c in C;
      var a := if c.from == z then c.(from := s) else c;
      assert a in A;
      PathCons(x, A, w, a, i, x.post, |w|, n - 1);
    }
  }

  lemma SplitKeepsProper(x: Frame, A: set<Arc>, s: nat, z: nat, w: seq<int>)
    requires Untouched(A, z) && z != x.pre && z != x.post && s != x.pre && s != x.post
    requires forall a :: a in A ==> a.kind == Plain || a.kind == Lacon
    ensures Proper(x, A, w) <==> Proper(x, Split(x, A, s, z), w)
  {
    var B := Split(x, A, s, z);
    if Proper(x, A, w) {
      var a, n: nat :| a in A && Leaves(x, A, w, a, n);
      SplitForward(x, A, w, a.to, Width(x, a), n, s, z);
      assert a in B && Leaves(x, B, w, a, n);
    }
    if Proper(x, B, w) {
      var b, n: nat :| b in B && Leaves(x, B, w, b, n);
      SplitBackward(x, A, w, b.to, Width(x, b), n, s, z);
      assert b in A && Leaves(x, A, w, b, n);
    }
  }

  // ----- the method

  /** Whether the search needs no loops: every arc out of pre is a bos arc. */
  ghost predicate Anchored(x: Frame, A: set<Arc>) {
    forall a :: a in A && a.from == x.pre ==> a.co == x.bos0 || a.co == x.bos1
  }

  /** The same proper words, whatever the lookahead constraints mean. */
  ghost predicate SameProper(x: Frame, A: set<Arc>, B: set<Arc>) {
    forall y: Frame, w | Like(x, y) :: Proper(y, A, w) <==> Proper(y, B, w)
  }

  /** `B` is what `makesearch` makes of `A`. */
  ghost predicate SearchesFor(x: Frame, A: set<Arc>, B: set<Arc>, colors: seq<int>) {
    && (forall y: Frame, w | Like(x, y) :: Proper(y, B, w) <==> Accepts(y, A, w))
    && OneWay(x, B) && Executable(x, B) && (forall b :: b in B ==> b.kind == Plain || b.kind == Lacon)
    && (if Anchored(x, A) then Anchored(x, B) && (forall b :: b in B ==> b.to != x.pre) else Loops(x, colors) <= B)
  }

  /** States to split: next to pre, but entered from elsewhere too. */
  function ToSplit(x: Frame, A: set<Arc>): set<nat> {
    set a, b | a in A && b in A && a.from == x.pre && a.to == b.to && b.from != x.pre :: a.to
  }

  /** Between two splits, with `todo` still to be split. */
  ghost predicate Splitting(x: Frame, A: set<Arc>, B: set<Arc>, todo: set<nat>) {
    && SameProper(x, A, B) && Executable(x, B) && (forall b :: b in B ==> b.kind == Plain || b.kind == Lacon)
    && OutArcs(B, x.pre) == OutArcs(A, x.pre) && OnlyFromPre(x, B, x.pre)
    && (forall s :: s in todo ==> NextToPre(x, A, s) && s != x.pre && s != x.post)
    && (forall q :: NextToPre(x, A, q) && q !in todo ==> OnlyFromPre(x, B, q))
  }

  lemma SplitStep(x: Frame, A: set<Arc>, B: set<Arc>, todo: set<nat>, s: nat, z: nat)
    requires Splitting(x, A, B, todo) && s in todo && Untouched(A, z) && Untouched(B, z) && z != x.pre && z != x.post
    ensures Splitting(x, A, Split(x, B, s, z), todo - {s})
  {
    var C, D := CopiedOuts(B, s, z), Split(x, B, s, z);
    forall y: Frame, w | Like(x, y) ensures Proper(y, A, w) <==> Proper(y, D, w) {
      SplitKeepsProper(y, B, s, z, w);
      assert Split(y, B, s, z) == D by { assert Returning(y, C, s) == Returning(x, C, s); }
      assert Proper(y, A, w) <==> Proper(y, B, w);
    }
    assert OutArcs(D, x.pre) == OutArcs(B, x.pre);
    forall q | NextToPre(x, A, q) && q !in todo - {s} ensures OnlyFromPre(x, D, q) {
      assert q != z;
      if q != s {
        assert OnlyFromPre(x, B, q);
        forall d | d in D && d.to == q ensures d.from == x.pre {
          assert d.from == z ==> d.(from := s) in B;
        }
      }
    }
  }

  function ColorArcs(colors: seq<int>, from: nat, to: nat): set<Arc> { set co | co in colors :: Arc(Plain, co, from, to) }

  /** Add arcs of all the given colours between two states. */
  method Rainbow(nfa: Nfa, colors: seq<int>, from: nat, to: nat)
    requires nfa.Valid() && from in nfa.states && to in nfa.states
    modifies nfa`arcs
    ensures nfa.Valid() && nfa.arcs == old(nfa.arcs) + ColorArcs(colors, from, to)
  {
    ghost var A := nfa.arcs;
    for i := 0 to |colors|
      invariant nfa.Valid() && nfa.arcs == A + ColorArcs(colors[..i], from, to)
    {
      nfa.NewArc(Plain, colors[i], from, to);
      assert colors[..i + 1] == colors[..i] + [colors[i]];
    }
    assert colors[..|colors|] == colors;
  }

  /** Add the loops unless every arc out of pre is a bos arc. */
  method AddLoops(nfa: Nfa, colors: seq<int>)
    requires nfa.Valid()
    modifies nfa`arcs
    ensures nfa.Valid()
    ensures nfa.arcs == old(nfa.arcs) + if Anchored(nfa.Ctx(), old(nfa.arcs)) then {} else Loops(nfa.Ctx(), colors)
  {
    var outs := OutArcs(nfa.arcs, nfa.pre);
    var found := false;
    while outs != {} && !found
      invariant outs <= OutArcs(nfa.arcs, nfa.pre)
      invariant !found ==> forall a :: a in OutArcs(nfa.arcs, nfa.pre) - outs ==> a.co == nfa.bos.0 || a.co == nfa.bos.1
      invariant found ==> exists a :: a in OutArcs(nfa.arcs, nfa.pre) && a.co != nfa.bos.0 && a.co != nfa.bos.1
      decreases outs
    {
      var a :| a in outs;
      found := a.co != nfa.bos.0 && a.co != nfa.bos.1;
      outs := outs - {a};
    }
    assert forall a :: a in nfa.arcs && a.from == nfa.pre ==> a in OutArcs(nfa.arcs, nfa.pre);
    if found {
      Rainbow(nfa, colors, nfa.pre, nfa.pre);
      nfa.NewArc(Plain, nfa.bos.0, nfa.pre, nfa.pre);
      nfa.NewArc(Plain, nfa.bos.1, nfa.pre, nfa.pre);
      assert Loop(nfa.Ctx(), nfa.bos.0) == Arc(Plain, nfa.bos.0, nfa.pre, nfa.pre);
    }
  }

  const NULL: int := -1

  /** The states of `chain` are listed from `slist` on by their mark fields. The one listed first
      is the last: its mark field is empty, unless it is on the list once more. */
  ghost predicate Chained(tmp: map<nat, nat>, slist: int, chain: seq<nat>) {
    && slist == (if chain == [] then NULL else chain[0])
    && (forall s :: s in tmp <==> exists i :: 0 <= i < |chain| - 1 && chain[i] == s)
    && (forall i :: 0 <= i < |chain| - 1 ==> chain[i] in tmp && tmp[chain[i]] == chain[i + 1])
    && (forall i, j :: 0 <= i < j < |chain| - 1 ==> chain[i] != chain[j])
  }

  /** One more state in front, of which the mark field is empty. */
  lemma ChainedFront(tmp: map<nat, nat>, slist: int, chain: seq<nat>, s: nat)
    requires Chained(tmp, slist, chain) && s !in tmp
    ensures Chained(if slist == NULL then tmp else tmp[s := slist], s, [s] + chain)
  {
    var longer, tmp' := [s] + chain, if slist == NULL then tmp else tmp[s := slist];
    if chain != [] {
      forall i | 0 <= i < |longer| - 1 ensures longer[i] in tmp' && tmp'[longer[i]] == longer[i + 1] {
        if i > 0 { assert longer[i] == chain[i - 1] && chain[i - 1] in tmp; }
      }
      forall u ensures u in tmp' <==> exists i :: 0 <= i < |longer| - 1 && longer[i] == u {
        if u == s { assert longer[0] == u; }
        if i :| 0 <= i < |chain| - 1 && chain[i] == u { assert longer[i + 1] == u; }
      }
    }
  }

  /** The first state off the list, its mark cleared. */
  lemma ChainedTail(tmp: map<nat, nat>, slist: int, chain: seq<nat>)
    requires Chained(tmp, slist, chain) && chain != []
    ensures var s := chain[0]; Chained(tmp - {s}, if s in tmp then tmp[s] else NULL, chain[1..])
  {
    var s, rest := chain[0], chain[1..];
    forall u ensures u in tmp - {s} <==> exists i :: 0 <= i < |rest| - 1 && rest[i] == u {
      if u in tmp && u != s {
        var i :| 0 <= i < |chain| - 1 && chain[i] == u;
        assert rest[i - 1] == u;
      }
      if i :| 0 <= i < |rest| - 1 && rest[i] == u { assert chain[i + 1] == u; }
    }
    if |chain| == 1 { assert s !in tmp; }
  }

  /** List the states that must be split, in their mark fields. */
  method ListSplits(nfa: Nfa) returns (slist: int, ghost chain: seq<nat>)
    requires nfa.Valid() && nfa.Clean()
    modifies nfa`tmp
    ensures Chained(nfa.tmp, slist, chain) && forall s :: s in chain <==> s in ToSplit(nfa.Ctx(), nfa.arcs)
  {
    slist, chain := NULL, [];
    var outs := OutArcs(nfa.arcs, nfa.pre);
    ghost var x, A := nfa.Ctx(), nfa.arcs;
    while outs != {}
      invariant outs <= OutArcs(A, nfa.pre) && Chained(nfa.tmp, slist, chain)
      invariant forall s :: s in chain <==> exists a :: a in OutArcs(A, nfa.pre) - outs && Returning(x, A, a.to) != {} && a.to == s
      decreases outs
    {
      var a :| a in outs;
      var s := a.to;
      var b := EnteredFromElsewhere(nfa, s);
      ghost var chain0, outs0 := chain, outs;
      if b && s !in nfa.tmp {
        ChainedFront(nfa.tmp, slist, chain, s);
        if slist != NULL {
          nfa.tmp := nfa.tmp[s := slist];
        }
        slist, chain := s, [s] + chain;
      }
      outs := outs - {a};
      assert OutArcs(A, nfa.pre) - outs == OutArcs(A, nfa.pre) - outs0 + {a};
      assert s in nfa.tmp ==> s in chain;
    }
    SplitList(x, A);
    assert OutArcs(A, nfa.pre) - {} == OutArcs(A, nfa.pre);
  }

  /** Look for an arc into `s` that does not come from pre. */
  method EnteredFromElsewhere(nfa: Nfa, s: nat) returns (b: bool)
    ensures b <==> Returning(nfa.Ctx(), nfa.arcs, s) != {}
  {
    ghost var x, A := nfa.Ctx(), nfa.arcs;
    var ins := InArcs(nfa.arcs, s);
    b := false;
    ghost var seen: set<Arc> := {};
    while ins != {} && !b
      invariant ins + seen == InArcs(A, s) && (b <==> exists r :: r in seen && r.from != nfa.pre)
      decreases ins
    {
      var r :| r in ins;
      b := r.from != nfa.pre;
      ins := ins - {r};
      seen := seen + {r};
    }
    if r :| r in seen && r.from != nfa.pre { assert r in InArcs(A, s) && r in Returning(x, A, s); }
    if r :| r in Returning(x, A, s) { assert r in InArcs(A, s); }
  }

  lemma SplitList(x: Frame, A: set<Arc>)
    ensures ToSplit(x, A) == set a | a in OutArcs(A, x.pre) && Returning(x, A, a.to) != {} :: a.to
  {
    forall a | a in OutArcs(A, x.pre) && Returning(x, A, a.to) != {} ensures a.to in ToSplit(x, A) {
      var b :| b in Returning(x, A, a.to);
    }
    forall s | s in ToSplit(x, A)
      ensures s in (set a | a in OutArcs(A, x.pre) && Returning(x, A, a.to) != {} :: a.to)
    {
      var a, b :| a in A && b in A && a.from == x.pre && a.to == b.to && b.from != x.pre && s == a.to;
      assert b in Returning(x, A, a.to) && a in OutArcs(A, x.pre);
    }
  }

  /** Give the arcs into `s` that do not come from pre to `s2` instead. */
  method MoveOthers(nfa: Nfa, s: nat, s2: nat)
    requires nfa.Valid() && s != s2 && s2 in nfa.states
    modifies nfa`arcs
    ensures nfa.Valid()
    ensures nfa.arcs == old(nfa.arcs) - Returning(nfa.Ctx(), old(nfa.arcs), s) + set a | a in Returning(nfa.Ctx(), old(nfa.arcs), s) :: a.(to := s2)
  {
    ghost var x, C := nfa.Ctx(), nfa.arcs;
    var ins := InArcs(nfa.arcs, s);
    while ins != {}
      invariant nfa.Valid() && ins <= InArcs(C, s) && ins <= nfa.arcs
      invariant nfa.arcs == C - (Returning(x, C, s) - ins) + set a | a in Returning(x, C, s) - ins :: a.(to := s2)
      decreases ins
    {
      var a :| a in ins;
      if a.from != nfa.pre {
        nfa.CopyArc(a, a.from, s2);
        nfa.FreeArc(a);
      }
      ins := ins - {a};
    }
  }

  /** Split one state into a progress and a no-progress state. */
  method SplitState(nfa: Nfa, s: nat) returns (s2: nat)
    requires nfa.Valid() && s in nfa.states && s != nfa.pre
    modifies nfa`states, nfa`arcs, nfa`fresh_, nfa`no, nfa`nstates
    ensures nfa.Valid() && (old(nfa.Numbered()) ==> nfa.Numbered())
    ensures s2 == old(nfa.fresh_) && nfa.fresh_ == s2 + 1 && Untouched(old(nfa.arcs), s2) && s2 != nfa.pre && s2 != nfa.post
    ensures nfa.states == old(nfa.states) + [s2] && nfa.arcs == Split(nfa.Ctx(), old(nfa.arcs), s, s2)
  {
    s2 := nfa.NewState();
    nfa.CopyOuts(s, s2);
    MoveOthers(nfa, s, s2);
  }

  /** A state that has been split may be split again: its new double is entered by nothing. */
  lemma SplittingMore(x: Frame, A: set<Arc>, B: set<Arc>, todo: set<nat>, todo': set<nat>, s: nat)
    requires Splitting(x, A, B, todo - {s}) && todo - {s} <= todo' <= todo && NextToPre(x, A, s) && s != x.pre && s != x.post
    ensures Splitting(x, A, B, todo')
  {
  }

  /** Split all the listed states, and clear the marks. */
  method SplitAll(nfa: Nfa, slist: int, ghost chain: seq<nat>)
    requires nfa.Valid() && nfa.Numbered() && Chained(nfa.tmp, slist, chain)
    requires Splitting(nfa.Ctx(), nfa.arcs, nfa.arcs, Members(chain))
    requires forall s :: s in chain ==> s in nfa.states
    modifies nfa`states, nfa`arcs, nfa`fresh_, nfa`no, nfa`nstates, nfa`tmp
    ensures nfa.Valid() && nfa.Numbered() && nfa.Clean() && Labels(nfa.arcs) <= Labels(old(nfa.arcs))
    ensures Splitting(nfa.Ctx(), old(nfa.arcs), nfa.arcs, {})
  {
    ghost var x, B := nfa.Ctx(), nfa.arcs;
    ghost var left := chain;
    var s := slist;
    while s != NULL
      invariant nfa.Valid() && nfa.Numbered() && Splitting(x, B, nfa.arcs, Members(left))
      invariant Chained(nfa.tmp, s, left)
      invariant Labels(nfa.arcs) <= Labels(B) && forall z :: z >= nfa.fresh_ ==> Untouched(B, z)
      invariant forall s :: s in left ==> s in nfa.states
      decreases |left|
    {
      ghost var C := nfa.arcs;
      assert s == left[0] && s in Members(left);
      var s2 := SplitState(nfa, s);
      SplitStep(x, B, C, Members(left), s, s2);
      assert Labels(nfa.arcs) <= Labels(C);
      ChainedTail(nfa.tmp, s, left);
      assert left == [left[0]] + left[1..];
      SplittingMore(x, B, nfa.arcs, Members(left), Members(left[1..]), s);
      left := left[1..];
      var next := if s in nfa.tmp then nfa.tmp[s] else NULL;
      nfa.tmp := nfa.tmp - {s};
      s := next;
    }
    assert left == [];
    assert Members(left) == {};
    assert nfa.tmp == map[];
  }

  /** Turn an optimized NFA into a search NFA. */
  method MakeSearch(nfa: Nfa, colors: seq<int>)
    requires nfa.Valid() && nfa.Clean() && nfa.Numbered() && Executable(nfa.Ctx(), nfa.arcs)
    requires forall a :: a in nfa.arcs ==> (a.kind == Plain || a.kind == Lacon) && a.to != nfa.pre
    modifies nfa`states, nfa`arcs, nfa`fresh_, nfa`no, nfa`nstates, nfa`tmp
    ensures nfa.Valid() && nfa.Clean() && nfa.Numbered()
    ensures SearchesFor(nfa.Ctx(), old(nfa.arcs), nfa.arcs, colors)
    ensures Labels(nfa.arcs) <= Labels(old(nfa.arcs)) + Labels(Loops(nfa.Ctx(), colors))
  {
    ghost var x, A := nfa.Ctx(), nfa.arcs;
    AddLoops(nfa, colors);
    ghost var B := nfa.arcs;
    var slist;
    ghost var chain;
    slist, chain := ListSplits(nfa);
    SplitStart(x, A, B, colors);
    assert Members(chain) == ToSplit(x, B);
    SplitAll(nfa, slist, chain);
    SplitEnd(x, A, B, nfa.arcs, colors);
  }

  lemma SplitStart(x: Frame, A: set<Arc>, B: set<Arc>, colors: seq<int>)
    requires x.Distinct() && Executable(x, A) && forall a :: a in A ==> (a.kind == Plain || a.kind == Lacon) && a.to != x.pre
    requires B == A + if Anchored(x, A) then {} else Loops(x, colors)
    ensures Splitting(x, B, B, ToSplit(x, B))
    ensures forall y: Frame, w | Like(x, y) :: Proper(y, B, w) <==> Accepts(y, A, w)
  {
    forall y: Frame, w | Like(x, y) ensures Proper(y, B, w) <==> Accepts(y, A, w) {
      ProperWithLoops(y, A, if Anchored(x, A) then {} else Loops(x, colors), w);
    }
    forall q | NextToPre(x, B, q) && q !in ToSplit(x, B) ensures OnlyFromPre(x, B, q) {
    }
  }

  lemma SplitEnd(x: Frame, A: set<Arc>, B: set<Arc>, C: set<Arc>, colors: seq<int>)
    requires Splitting(x, B, C, {}) && forall a :: a in A ==> a.to != x.pre
    requires B == A + if Anchored(x, A) then {} else Loops(x, colors)
    requires forall y: Frame, w | Like(x, y) :: Proper(y, B, w) <==> Accepts(y, A, w)
    ensures SearchesFor(x, A, C, colors)
  {
    forall y: Frame, w | Like(x, y) ensures Proper(y, C, w) <==> Accepts(y, A, w) {
      assert Proper(y, B, w) <==> Proper(y, C, w);
    }
    forall a: Arc | a.from == x.pre ensures a in B <==> a in C {
      assert a in OutArcs(B, x.pre) <==> a in OutArcs(C, x.pre);
    }
    forall q | NextToPre(x, C, q) ensures OnlyFromPre(x, C, q) {
      assert NextToPre(x, B, q);
    }
  }
}

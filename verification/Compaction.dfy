/** `compact`: from the mutable NFA to arc lists by state number. */
module Compaction {
  import opened Automaton
  import opened Surgery
  import opened NfaModel
  import opened Constraints
  import opened CompactNfa

  // ----- renaming states keeps the words

  function NumberOf(no: map<nat, nat>, s: nat): nat { if s in no then no[s] else 0 }

  function RenamedArc(a: Arc, no: map<nat, nat>): Arc { a.(from := NumberOf(no, a.from), to := NumberOf(no, a.to)) }

  function Renamed(A: set<Arc>, no: map<nat, nat>): set<Arc> { set a | a in A :: RenamedArc(a, no) }

  /** `no` gives the states of `S` different numbers. */
  ghost predicate OneToOne(no: map<nat, nat>, S: set<nat>) {
    forall s, t :: s in S && t in S && NumberOf(no, s) == NumberOf(no, t) ==> s == t
  }

  ghost predicate Compactable(A: set<Arc>, S: set<nat>) {
    forall a :: a in A ==> (a.kind == Plain || a.kind == Lacon) && a.from in S && a.to in S
  }

  function RenamedFrame(x: Frame, no: map<nat, nat>): Frame {
    x.(pre := NumberOf(no, x.pre), post := NumberOf(no, x.post))
  }

  lemma {:induction false} RenamedForward(x: Frame, A: set<Arc>, no: map<nat, nat>, S: set<nat>, w: seq<int>, s: nat, i: int, n: nat)
    requires 0 <= i <= |w| && Compactable(A, S)
    requires Ends(x, A, w, s, i, n)
    ensures Ends(RenamedFrame(x, no), Renamed(A, no), w, NumberOf(no, s), i, n)
    decreases n
  {
    if n > 0 {
      var a := PathFirst(x, A, w, s, i, x.post, |w|, n);
      RenamedForward(x, A, no, S, w, a.to, i + Width(x, a), n - 1);
      var y := RenamedFrame(x, no);
      PathCons(y, Renamed(A, no), w, RenamedArc(a, no), i, y.post, |w|, n - 1);
    }
  }

  lemma {:induction false} RenamedBackward(x: Frame, A: set<Arc>, no: map<nat, nat>, S: set<nat>, w: seq<int>, s: nat, i: int, n: nat)
    requires 0 <= i <= |w| && Compactable(A, S) && OneToOne(no, S) && s in S && x.post in S
    requires Ends(RenamedFrame(x, no), Renamed(A, no), w, NumberOf(no, s), i, n)
    ensures Ends(x, A, w, s, i, n)
    decreases n
  {
    if n > 0 {
      var y := RenamedFrame(x, no);
      var b := PathFirst(y, Renamed(A, no), w, NumberOf(no, s), i, y.post, |w|, n);
      var a :| a in A && b == RenamedArc(a, no);
      RenamedBackward(x, A, no, S, w, a.to, i + Width(x, a), n - 1);
      PathCons(x, A, w, a, i, x.post, |w|, n - 1);
    }
  }

  /** Renaming states one-to-one keeps the words. */
  lemma RenamingKeeps(x: Frame, A: set<Arc>, no: map<nat, nat>, S: set<nat>, w: seq<int>)
    requires Compactable(A, S) && OneToOne(no, S) && x.pre in S && x.post in S
    ensures Accepts(x, A, w) <==> Accepts(RenamedFrame(x, no), Renamed(A, no), w)
  {
    if Accepts(x, A, w) {
      var n: nat :| Ends(x, A, w, x.pre, 0, n);
      RenamedForward(x, A, no, S, w, x.pre, 0, n);
    }
    if Accepts(RenamedFrame(x, no), Renamed(A, no), w) {
      var n: nat :| Ends(RenamedFrame(x, no), Renamed(A, no), w, NumberOf(no, x.pre), 0, n);
      RenamedBackward(x, A, no, S, w, x.pre, 0, n);
    }
  }

  // ----- compaction

  /** Plain arcs have a colour in use; lookahead constraints are numbered from 1. */
  ghost predicate ColorsBelow(A: set<Arc>, ncolors: nat) {
    forall a :: a in A ==> if a.kind == Plain then 0 <= a.co < ncolors else a.kind == Lacon && a.co > 0
  }

  function Compacted(a: Arc, no: map<nat, nat>, ncolors: nat): CArc {
    CArc(if a.kind == Lacon then ncolors + a.co else a.co, NumberOf(no, a.to))
  }

  function CompactedAll(A: set<Arc>, no: map<nat, nat>, ncolors: nat): set<CArc> {
    set a | a in A :: Compacted(a, no, ncolors)
  }

  function Listed(list: seq<CArc>): set<CArc> { set ca | ca in list }

  /** One state's arc list. */
  method ArcList(nfa: Nfa, s: nat, ncolors: nat) returns (list: seq<CArc>, lacons: bool)
    ensures Listed(list) == CompactedAll(OutArcs(nfa.arcs, s), nfa.no, ncolors)
    ensures lacons <==> exists a :: a in OutArcs(nfa.arcs, s) && a.kind == Lacon
  {
    list, lacons := [], false;
    var outs := OutArcs(nfa.arcs, s);
    while outs != {}
      invariant outs <= OutArcs(nfa.arcs, s)
      invariant Listed(list) == CompactedAll(OutArcs(nfa.arcs, s) - outs, nfa.no, ncolors)
      invariant lacons <==> exists a :: a in OutArcs(nfa.arcs, s) - outs && a.kind == Lacon
      decreases outs
    {
      var a :| a in outs;
      list := list + [Compacted(a, nfa.no, ncolors)];
      lacons := lacons || a.kind == Lacon;
      outs := outs - {a};
      assert Listed(list) == Listed(list[..|list| - 1]) + {list[|list| - 1]};
      assert OutArcs(nfa.arcs, s) - outs == (OutArcs(nfa.arcs, s) - outs - {a}) + {a};
    }
  }

  /** `c` lists the arcs `A` of the numbered `states`. */
  ghost predicate CompactOf(c: Cnfa, x: Frame, A: set<Arc>, states: seq<nat>, no: map<nat, nat>) {
    && c.nstates == |c.outs| == |c.noprogress| == |states|
    && c.pre == NumberOf(no, x.pre) && c.post == NumberOf(no, x.post)
    && c.bos == (x.bos0, x.bos1) && c.eos == (x.eos0, x.eos1)
    && (c.hasLacons <==> exists a :: a in A && a.kind == Lacon)
    && (forall i :: 0 <= i < |c.outs| ==> Listed(c.outs[i]) == CompactedAll(OutArcs(A, states[i]), no, c.ncolors))
    && (forall i :: 0 <= i < |c.outs| ==>
          (c.noprogress[i] <==> i == c.pre || exists a :: a in OutArcs(A, x.pre) && NumberOf(no, a.to) == i))
  }

  /** Compact an optimized NFA. `ncolors` is one more than the highest colour. */
  method Compact(nfa: Nfa, ncolors: nat) returns (c: Cnfa)
    requires nfa.Valid() && nfa.Numbered() && ColorsBelow(nfa.arcs, ncolors)
    ensures c.ncolors == ncolors && CompactOf(c, nfa.Ctx(), nfa.arcs, nfa.states, nfa.no)
  {
    var outs: seq<seq<CArc>>, hasLacons := [], false;
    for n := 0 to |nfa.states|
      invariant |outs| == n
      invariant hasLacons <==> exists a :: a in nfa.arcs && a.kind == Lacon && a.from in nfa.states[..n]
      invariant forall i :: 0 <= i < n ==> Listed(outs[i]) == CompactedAll(OutArcs(nfa.arcs, nfa.states[i]), nfa.no, ncolors)
    {
      var s := nfa.states[n];
      var list, lacons := ArcList(nfa, s, ncolors);
      outs := outs + [list];
      hasLacons := hasLacons || lacons;
      assert nfa.states[..n + 1] == nfa.states[..n] + [s];
      assert lacons <==> exists a :: a in nfa.arcs && a.kind == Lacon && a.from == s;
    }
    assert nfa.states[..|nfa.states|] == nfa.states;
    var noprogress := MarkNoProgress(nfa);
    c := Cnfa(|nfa.states|, ncolors, nfa.no[nfa.pre], nfa.no[nfa.post], nfa.bos, nfa.eos, hasLacons, outs, noprogress);
  }

  /** Mark pre and the states next to it. */
  method MarkNoProgress(nfa: Nfa) returns (marks: seq<bool>)
    requires nfa.Valid() && nfa.Numbered()
    ensures |marks| == |nfa.states|
    ensures forall i :: 0 <= i < |marks| ==>
      (marks[i] <==> i == NumberOf(nfa.no, nfa.pre) || exists a :: a in OutArcs(nfa.arcs, nfa.pre) && NumberOf(nfa.no, a.to) == i)
  {
    marks := seq(|nfa.states|, _ => false);
    var outs := OutArcs(nfa.arcs, nfa.pre);
    while outs != {}
      invariant outs <= OutArcs(nfa.arcs, nfa.pre) && |marks| == |nfa.states|
      invariant forall i :: 0 <= i < |marks| ==>
        (marks[i] <==> exists a :: a in OutArcs(nfa.arcs, nfa.pre) - outs && NumberOf(nfa.no, a.to) == i)
      decreases outs
    {
      var a :| a in outs;
      assert a.to in nfa.states;
      marks := marks[nfa.no[a.to] := true];
      outs := outs - {a};
    }
    marks := marks[nfa.no[nfa.pre] := true];
  }

  /** The state chain is numbered along, and arcs stay within it. */
  ghost predicate InOrder(A: set<Arc>, states: seq<nat>, no: map<nat, nat>) {
    && (forall i :: 0 <= i < |states| ==> NumberOf(no, states[i]) == i)
    && (forall a :: a in A ==> a.from in states && a.to in states)
  }

  lemma ListedArc(c: Cnfa, x: Frame, A: set<Arc>, states: seq<nat>, no: map<nat, nat>, a: Arc)
    requires CompactOf(c, x, A, states, no) && InOrder(A, states, no) && ColorsBelow(A, c.ncolors)
    requires a in A
    ensures RenamedArc(a, no) in ArcsOf(c)
  {
    var i := NumberOf(no, a.from);
    var ca := Compacted(a, no, c.ncolors);
    assert a in OutArcs(A, states[i]) && ca in Listed(c.outs[i]);
    var k: nat :| k < |c.outs[i]| && c.outs[i][k] == ca;
    ArcIn(c, i, k);
  }

  lemma ArcListed(c: Cnfa, x: Frame, A: set<Arc>, states: seq<nat>, no: map<nat, nat>, i: nat, k: nat) returns (a: Arc)
    requires CompactOf(c, x, A, states, no) && InOrder(A, states, no) && ColorsBelow(A, c.ncolors)
    requires i < |c.outs| && k < |c.outs[i]|
    ensures a in A && a.from == states[i] && c.outs[i][k] == Compacted(a, no, c.ncolors)
    ensures ArcOf(c, i, c.outs[i][k]) == RenamedArc(a, no)
  {
    assert c.outs[i][k] in Listed(c.outs[i]);
    a :| a in OutArcs(A, states[i]) && c.outs[i][k] == Compacted(a, no, c.ncolors);
  }

  /** The compacted arcs are the arcs, renamed. */
  lemma CompactedArcs(c: Cnfa, x: Frame, A: set<Arc>, states: seq<nat>, no: map<nat, nat>)
    requires CompactOf(c, x, A, states, no) && InOrder(A, states, no) && ColorsBelow(A, c.ncolors)
    ensures ArcsOf(c) == Renamed(A, no)
  {
    forall b | b in Renamed(A, no) ensures b in ArcsOf(c) {
      var a :| a in A && b == RenamedArc(a, no);
      ListedArc(c, x, A, states, no, a);
    }
    forall b | b in ArcsOf(c) ensures b in Renamed(A, no) {
      var k := ArcAt(c, b);
      var a := ArcListed(c, x, A, states, no, b.from, k);
    }
  }

  /** What an optimized NFA, or the search NFA made from one, looks like. */
  ghost predicate Executable(x: Frame, A: set<Arc>) {
    forall a :: a in A ==>
      && a.from != x.post && !(a.from == x.pre && a.to == x.post)
      && (a.to == x.pre ==> a.from == x.pre)
      && (a.kind == Lacon ==> a.from != x.pre && a.to != x.post)
  }

  /** `c` is the compacted form of executable, numbered arcs with colours in range. */
  ghost predicate Compacts(c: Cnfa, x: Frame, A: set<Arc>, states: seq<nat>, no: map<nat, nat>) {
    && CompactOf(c, x, A, states, no) && InOrder(A, states, no) && ColorsBelow(A, c.ncolors)
    && x.pre in states && x.post in states && x.Distinct() && Executable(x, A)
    && 0 <= x.bos0 < c.ncolors && 0 <= x.bos1 < c.ncolors && 0 <= x.eos0 < c.ncolors && 0 <= x.eos1 < c.ncolors
  }

  /** Compaction keeps the words and hands the executor what it relies on. */
  lemma CompactionCorrect(c: Cnfa, x: Frame, A: set<Arc>, states: seq<nat>, no: map<nat, nat>)
    requires Compacts(c, x, A, states, no)
    ensures ArcsOf(c) == Renamed(A, no) && WellFormed(c)
    ensures forall w :: Accepts(x, A, w) <==> Accepts(FrameOf(c, x.holds, x.off), ArcsOf(c), w)
  {
    CompactedArcs(c, x, A, states, no);
    var S := set u | u in states;
    assert OneToOne(no, S);
    forall w ensures Accepts(x, A, w) <==> Accepts(FrameOf(c, x.holds, x.off), ArcsOf(c), w) {
      RenamingKeeps(x, A, no, S, w);
    }
    CompactedWellFormed(c, x, A, states, no);
  }

  lemma CompactedWellFormed(c: Cnfa, x: Frame, A: set<Arc>, states: seq<nat>, no: map<nat, nat>)
    requires Compacts(c, x, A, states, no) && ArcsOf(c) == Renamed(A, no)
    ensures WellFormed(c)
  {
    forall i, k | 0 <= i < c.nstates && 0 <= k < |c.outs[i]|
      ensures 0 <= c.outs[i][k].co != c.ncolors && c.outs[i][k].to < c.nstates
    {
      var a := ArcListed(c, x, A, states, no, i, k);
    }
    forall b | b in ArcsOf(c)
      ensures b.from != c.post && !(b.from == c.pre && b.to == c.post)
      ensures b.to == c.pre ==> b.from == c.pre
      ensures b.kind == Lacon ==> c.hasLacons && b.from != c.pre && b.to != c.post
    {
      var a :| a in A && b == RenamedArc(a, no);
    }
    forall q | 0 <= q < c.nstates
      ensures c.noprogress[q] <==> q == c.pre || exists b :: b in ArcsOf(c) && b.from == c.pre && b.to == q
    {
      if a :| a in OutArcs(A, x.pre) && NumberOf(no, a.to) == q {
        assert RenamedArc(a, no) in Renamed(A, no);
      }
      if b :| b in ArcsOf(c) && b.from == c.pre && b.to == q {
        var a :| a in A && b == RenamedArc(a, no);
        assert a in OutArcs(A, x.pre);
      }
    }
  }
}

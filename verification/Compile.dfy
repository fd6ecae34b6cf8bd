/** From a raw NFA to what the executor runs: the main automaton and the search automaton. */
module Compile {
  import opened Automaton
  import Empties
  import opened Surgery
  import opened NfaModel
  import opened Constraints
  import opened Optimizer
  import opened CompactNfa
  import opened Compaction
  import opened Simulation
  import opened SearchNfa
  import opened Search

  /** `c` accepts what the arcs `A` accept, whatever the lookahead constraints mean. */
  ghost predicate Speaks(c: Cnfa, x: Frame, A: set<Arc>) {
    forall y: Frame, w | Like(x, y) :: Accepts(y, A, w) <==> Accepts(FrameOf(c, y.holds, y.off), ArcsOf(c), w)
  }

  /** `s` searches for what the arcs `A` accept. */
  ghost predicate SpeaksSearch(s: Cnfa, x: Frame, A: set<Arc>, colors: seq<int>) {
    && (forall y: Frame, w | Like(x, y) :: Accepts(y, A, w) <==> Proper(FrameOf(s, y.holds, y.off), ArcsOf(s), w))
    && OneWay(FrameOf(s, x.holds, x.off), ArcsOf(s))
    && ( || (forall co | co in colors || co == x.bos0 || co == x.bos1 :: Arc(Plain, co, s.pre, s.pre) in ArcsOf(s))
         || (Anchored(FrameOf(s, x.holds, x.off), ArcsOf(s)) && forall a :: a in ArcsOf(s) ==> a.to != s.pre))
  }

  /** The labels of the raw arcs are colours in use or numbers of lookahead constraints. */
  ghost predicate InRange(x: Frame, L: set<(Kind, int)>, ncolors: nat) {
    && (forall l :: l in L ==> if l.0 == Plain then 0 <= l.1 < ncolors else l.0 == Lacon ==> l.1 > 0)
    && 0 <= x.bos0 < ncolors && 0 <= x.bos1 < ncolors && 0 <= x.eos0 < ncolors && 0 <= x.eos1 < ncolors
  }

  lemma RangeKept(x: Frame, A: set<Arc>, B: set<Arc>, ncolors: nat)
    requires InRange(x, Labels(A), ncolors) && Labels(B) <= Labels(A) + EndMarks(x)
    requires forall b :: b in B ==> b.kind == Plain || b.kind == Lacon
    ensures ColorsBelow(B, ncolors)
  {
    forall b | b in B ensures if b.kind == Plain then 0 <= b.co < ncolors else b.co > 0 {
      assert (b.kind, b.co) in Labels(B);
    }
  }

  lemma RangeWithLoops(x: Frame, A: set<Arc>, B: set<Arc>, colors: seq<int>, ncolors: nat)
    requires ColorsBelow(A, ncolors) && Labels(B) <= Labels(A) + Labels(Loops(x, colors))
    requires 0 <= x.bos0 < ncolors && 0 <= x.bos1 < ncolors && forall co :: co in colors ==> 0 <= co < ncolors
    requires forall b :: b in B ==> b.kind == Plain || b.kind == Lacon
    ensures ColorsBelow(B, ncolors)
  {
    forall b | b in B ensures if b.kind == Plain then 0 <= b.co < ncolors else b.co > 0 {
      assert (b.kind, b.co) in Labels(B);
      var a :| a in A + Loops(x, colors) && (a.kind, a.co) == (b.kind, b.co);
    }
  }

  // ----- all that was said about state names, in one frame

  function StateSet(states: seq<nat>): set<nat> { set u | u in states }

  lemma ExecutorFrame(c: Cnfa, x: Frame, y: Frame, A: set<Arc>, states: seq<nat>, no: map<nat, nat>)
    requires Compacts(c, x, A, states, no) && Like(x, y)
    ensures Compacts(c, y, A, states, no) && FrameOf(c, y.holds, y.off) == RenamedFrame(y, no)
    ensures Compactable(A, StateSet(states)) && OneToOne(no, StateSet(states)) && y.pre in StateSet(states) && y.post in StateSet(states)
  {
  }

  lemma CompactSpeaks(c: Cnfa, x: Frame, A: set<Arc>, B: set<Arc>, states: seq<nat>, no: map<nat, nat>)
    requires Compacts(c, x, B, states, no) && SameLanguage(x, A, B)
    ensures Speaks(c, x, A)
  {
    forall y: Frame, w | Like(x, y) ensures Accepts(y, A, w) <==> Accepts(FrameOf(c, y.holds, y.off), ArcsOf(c), w) {
      ExecutorFrame(c, x, y, B, states, no);
      CompactionCorrect(c, y, B, states, no);
    }
  }

  // ----- renaming states and the search automaton

  lemma RenamingKeepsProper(x: Frame, A: set<Arc>, no: map<nat, nat>, S: set<nat>, w: seq<int>)
    requires Compactable(A, S) && OneToOne(no, S) && x.pre in S && x.post in S
    ensures Proper(x, A, w) <==> Proper(RenamedFrame(x, no), Renamed(A, no), w)
  {
    var y, B := RenamedFrame(x, no), Renamed(A, no);
    if Proper(x, A, w) {
      var a, n: nat :| a in A && Leaves(x, A, w, a, n);
      RenamedForward(x, A, no, S, w, a.to, Width(x, a), n);
      assert RenamedArc(a, no) in B && Leaves(y, B, w, RenamedArc(a, no), n);
    }
    if Proper(y, B, w) {
      var b, n: nat :| b in B && Leaves(y, B, w, b, n);
      var a :| a in A && b == RenamedArc(a, no);
      RenamedBackward(x, A, no, S, w, a.to, Width(x, a), n);
      assert Leaves(x, A, w, a, n);
    }
  }

  lemma RenamedOneWay(x: Frame, A: set<Arc>, no: map<nat, nat>, S: set<nat>)
    requires Compactable(A, S) && OneToOne(no, S) && x.pre in S && OneWay(x, A)
    ensures OneWay(RenamedFrame(x, no), Renamed(A, no))
  {
    var y, B := RenamedFrame(x, no), Renamed(A, no);
    assert OnlyFromPre(x, A, x.pre);
    forall q | q == y.pre || NextToPre(y, B, q) ensures OnlyFromPre(y, B, q) {
      if NextToPre(y, B, q) {
        var b :| b in B && b.from == y.pre && b.to == q;
        var a :| a in A && b == RenamedArc(a, no);
        assert NextToPre(x, A, a.to) && OnlyFromPre(x, A, a.to);
      }
    }
  }

  /** The loops at pre, or the lack of them, survive compaction. */
  lemma LoopsStay(s: Cnfa, x: Frame, A: set<Arc>, B: set<Arc>, states: seq<nat>, no: map<nat, nat>, colors: seq<int>)
    requires Compacts(s, x, B, states, no) && SearchesFor(x, A, B, colors)
    ensures || (forall co | co in colors || co == x.bos0 || co == x.bos1 :: Arc(Plain, co, s.pre, s.pre) in ArcsOf(s))
            || (Anchored(FrameOf(s, x.holds, x.off), ArcsOf(s)) && forall a :: a in ArcsOf(s) ==> a.to != s.pre)
  {
    CompactionCorrect(s, x, B, states, no);
    if Anchored(x, A) {
      forall b | b in ArcsOf(s) ensures b.to != s.pre && (b.from == s.pre ==> b.co == x.bos0 || b.co == x.bos1) {
        var a :| a in B && b == RenamedArc(a, no);
        assert a.from in states && a.to in states;
      }
    } else {
      forall co | co in colors || co == x.bos0 || co == x.bos1 ensures Arc(Plain, co, s.pre, s.pre) in ArcsOf(s) {
        assert Loop(x, co) in Loops(x, colors);
        assert RenamedArc(Loop(x, co), no) in Renamed(B, no);
      }
    }
  }

  lemma CompactSearches(s: Cnfa, x: Frame, A: set<Arc>, A': set<Arc>, B: set<Arc>, states: seq<nat>, no: map<nat, nat>, colors: seq<int>)
    requires Compacts(s, x, B, states, no) && SameLanguage(x, A, A') && SearchesFor(x, A', B, colors)
    ensures SpeaksSearch(s, x, A, colors)
  {
    CompactionCorrect(s, x, B, states, no);
    forall y: Frame, w | Like(x, y) ensures Accepts(y, A, w) <==> Proper(FrameOf(s, y.holds, y.off), ArcsOf(s), w) {
      ExecutorFrame(s, x, y, B, states, no);
      RenamingKeepsProper(y, B, no, StateSet(states), w);
    }
    ExecutorFrame(s, x, x, B, states, no);
    RenamedOneWay(x, B, no, StateSet(states));
    LoopsStay(s, x, A', B, states, no, colors);
  }

  lemma NothingIntoPre(c: Cnfa, x: Frame, A: set<Arc>, states: seq<nat>, no: map<nat, nat>)
    requires Compacts(c, x, A, states, no) && forall a :: a in A ==> a.to != x.pre
    ensures forall a :: a in ArcsOf(c) ==> a.to != c.pre
  {
    CompactionCorrect(c, x, A, states, no);
    forall b | b in ArcsOf(c) ensures b.to != c.pre {
      var a :| a in A && b == RenamedArc(a, no);
      assert a.to in states;
    }
  }

  // ----- the two compilations

  /** Optimize and compact: the automaton accepts what the raw arcs accept. */
  method NfaNode(nfa: Nfa, ncolors: nat, bound: Empties.Bound) returns (finished: bool, info: Info, c: Cnfa)
    requires nfa.Valid() && nfa.Clean() && Shaped(nfa.Ctx(), nfa.arcs) && Ordinary(nfa.Ctx(), nfa.arcs)
    requires InRange(nfa.Ctx(), Labels(nfa.arcs), ncolors) && (bound.Unbounded? ==> Empties.Ranked(nfa.arcs))
    modifies nfa`states, nfa`arcs, nfa`fresh_, nfa`no, nfa`nstates, nfa`tmp
    ensures finished ==> WellFormed(c) && Speaks(c, nfa.Ctx(), old(nfa.arcs))
    ensures finished ==> c.ncolors == ncolors && c.bos == nfa.bos && c.eos == nfa.eos
    ensures finished ==> forall a :: a in ArcsOf(c) ==> a.to != c.pre
    ensures finished && info == Impossible ==> forall y: Frame, w | Like(nfa.Ctx(), y) :: !Accepts(y, old(nfa.arcs), w)
    ensures bound.Unbounded? ==> finished
  {
    ghost var x, A := nfa.Ctx(), nfa.arcs;
    c := Cnfa(0, 0, 0, 0, (0, 0), (0, 0), false, [], []);
    finished, info := Optimize(nfa, bound);
    if finished {
      RangeKept(x, A, nfa.arcs, ncolors);
      c := Compact(nfa, ncolors);
      assert Compacts(c, x, nfa.arcs, nfa.states, nfa.no);
      CompactSpeaks(c, x, A, nfa.arcs, nfa.states, nfa.no);
      CompactionCorrect(c, x, nfa.arcs, nfa.states, nfa.no);
      NothingIntoPre(c, x, nfa.arcs, nfa.states, nfa.no);
    }
  }

  /** Optimize, turn into a search NFA and compact. */
  method SearchNode(nfa: Nfa, colors: seq<int>, ncolors: nat, bound: Empties.Bound) returns (finished: bool, s: Cnfa)
    requires nfa.Valid() && nfa.Clean() && Shaped(nfa.Ctx(), nfa.arcs) && Ordinary(nfa.Ctx(), nfa.arcs)
    requires InRange(nfa.Ctx(), Labels(nfa.arcs), ncolors) && forall co :: co in colors ==> 0 <= co < ncolors
    requires bound.Unbounded? ==> Empties.Ranked(nfa.arcs)
    modifies nfa`states, nfa`arcs, nfa`fresh_, nfa`no, nfa`nstates, nfa`tmp
    ensures finished ==> WellFormed(s) && SpeaksSearch(s, nfa.Ctx(), old(nfa.arcs), colors)
    ensures finished ==> s.ncolors == ncolors && s.bos == nfa.bos && s.eos == nfa.eos
    ensures bound.Unbounded? ==> finished
  {
    ghost var x, A := nfa.Ctx(), nfa.arcs;
    s := Cnfa(0, 0, 0, 0, (0, 0), (0, 0), false, [], []);
    var info;
    finished, info := Optimize(nfa, bound);
    if finished {
      ghost var B := nfa.arcs;
      RangeKept(x, A, B, ncolors);
      MakeSearch(nfa, colors);
      RangeWithLoops(x, B, nfa.arcs, colors, ncolors);
      s := Compact(nfa, ncolors);
      assert Compacts(s, x, nfa.arcs, nfa.states, nfa.no);
      CompactSearches(s, x, A, B, nfa.arcs, nfa.states, nfa.no, colors);
      CompactionCorrect(s, x, nfa.arcs, nfa.states, nfa.no);
    }
  }

  // ----- the two together

  /** The main automaton and the search automaton of the same words fit together:
      the search finds the matches of the main automaton in any string. */
  lemma SearchPair(c: Cnfa, s: Cnfa, x: Frame, A: set<Arc>, colors: seq<int>, t: Text)
    requires WellFormed(c) && Speaks(c, x, A) && WellFormed(s) && SpeaksSearch(s, x, A, colors)
    requires s.ncolors == c.ncolors && s.bos == c.bos == (x.bos0, x.bos1) && s.eos == c.eos
    requires Colored(c, t) && forall p :: 0 <= p < |t.col| ==> t.col[p] in colors
    ensures Finds(s, c, t)
  {
    forall off: int, w
      ensures Accepts(FrameOf(c, t.holds, off), ArcsOf(c), w) <==> Proper(FrameOf(s, t.holds, off), ArcsOf(s), w)
    {
      var y := Placed(x, t.holds, off);
      assert Accepts(y, A, w) <==> Accepts(FrameOf(c, y.holds, y.off), ArcsOf(c), w);
    }
    var y, z := FrameOf(s, x.holds, x.off), FrameOf(s, t.holds, 0);
    assert OnlyFromPre(y, ArcsOf(s), s.pre);
    forall q | NextToPre(z, ArcsOf(s), q) ensures OnlyFromPre(z, ArcsOf(s), q) {
      assert NextToPre(y, ArcsOf(s), q) && OnlyFromPre(y, ArcsOf(s), q);
    }
  }
}

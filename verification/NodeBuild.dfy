/** `nfanode`: from a fragment of the parser's NFA to the automaton of a tree node. */
module NodeBuild {
  import opened Automaton
  import Empties
  import Weights
  import opened Climbing
  import opened Surgery
  import opened NfaModel
  import opened Cleanup
  import opened Constraints
  import opened Optimizer
  import opened CompactNfa
  import opened Simulation
  import opened SearchNfa
  import opened Search
  import opened Compile
  import opened Fragments
  import opened Duplicate
  import opened Framing

  // ----- label words and strings

  /** Passing label `lab` at position `p` of the text. */
  ghost predicate Readable(c: Cnfa, t: Text, lab: Label, p: nat)
    requires p <= |t.col|
  {
    match lab.0
    case Plain => p < |t.col| && t.col[p] == lab.1
    case Empty => true
    case Begin => Prev(c, t, p) == if lab.1 == 0 then c.bos.0 else c.bos.1
    case End => Next(c, t, p) == if lab.1 == 0 then c.eos.0 else c.eos.1
    case Behind => Prev(c, t, p) == lab.1
    case Ahead => Next(c, t, p) == lab.1
    case Lacon => t.holds(lab.1, p)
  }

  /** The label word matches the substring from `p` to `q`, in its context. */
  ghost predicate LabelsMatch(c: Cnfa, t: Text, l: seq<Label>, p: nat, q: nat)
    decreases |l|
  {
    p <= |t.col| && if l == [] then p == q
                    else Readable(c, t, l[0], p) && LabelsMatch(c, t, l[1..], p + LabelWidth(l[0]), q)
  }

  lemma {:induction false} LabelsMatchBounds(c: Cnfa, t: Text, l: seq<Label>, p: nat, q: nat)
    requires LabelsMatch(c, t, l, p, q)
    ensures p <= q <= |t.col|
    decreases |l|
  {
    if l != [] {
      LabelsMatchBounds(c, t, l[1..], p + LabelWidth(l[0]), q);
    }
  }

  /** A label means the same at an index of an extended word and at a position of the text. */
  lemma LabelAgrees(c: Cnfa, x: Frame, t: Text, b: nat, e: nat, lab: Label, p: nat)
    requires b <= p <= e <= |t.col| && c.bos == (x.bos0, x.bos1) && c.eos == (x.eos0, x.eos1)
    requires p + LabelWidth(lab) <= e
    ensures LabelCan(Placed(x, t.holds, b - 1), lab, MatchWord(c, t, b, e), p - b + 1) <==> Readable(c, t, lab, p)
  {
    var w := MatchWord(c, t, b, e);
    assert w[p - b] == Prev(c, t, p) && w[p - b + 1] == Next(c, t, p);
  }

  /** Reading an extended word and matching a substring are the same thing. */
  lemma {:induction false} SpellsMatch(c: Cnfa, x: Frame, t: Text, b: nat, e: nat, l: seq<Label>, p: nat)
    requires b <= p <= e <= |t.col| && c.bos == (x.bos0, x.bos1) && c.eos == (x.eos0, x.eos1)
    ensures Spells(Placed(x, t.holds, b - 1), l, MatchWord(c, t, b, e), p - b + 1, e - b + 1) <==> LabelsMatch(c, t, l, p, e)
    decreases |l|
  {
    if l != [] {
      var p' := p + LabelWidth(l[0]);
      if p' <= e {
        LabelAgrees(c, x, t, b, e, l[0], p);
        SpellsMatch(c, x, t, b, e, l[1..], p');
      } else {
        NotPast(Placed(x, t.holds, b - 1), l[1..], MatchWord(c, t, b, e), p' - b + 1, e - b + 1);
        if LabelsMatch(c, t, l, p, e) { LabelsMatchBounds(c, t, l[1..], p', e); }
      }
    }
  }

  lemma {:induction false} NotPast(x: Frame, l: seq<Label>, w: seq<int>, i: int, j: int)
    requires 0 <= j < i <= |w|
    ensures !Spells(x, l, w, i, j)
    decreases |l|
  {
    if l != [] && LabelCan(x, l[0], w, i) {
      NotPast(x, l[1..], w, i + LabelWidth(l[0]), j);
    }
  }

  /** Some word of `X` matches the substring. */
  ghost predicate LanguageMatches(c: Cnfa, t: Text, X: Language, b: nat, e: nat) {
    exists l :: l in X && LabelsMatch(c, t, l, b, e)
  }

  // ----- a node's automaton

  /** `c` is an automaton for the label words of `X`. */
  ghost predicate NodeOf(c: Cnfa, X: Language, colors: seq<int>) {
    && WellFormed(c) && (forall a :: a in ArcsOf(c) ==> a.to != c.pre)
    && forall holds: (int, int) -> bool, off: int, w ::
         Accepts(FrameOf(c, holds, off), ArcsOf(c), w) <==> InFrame(FrameOf(c, holds, off), colors, X, w)
  }

  /** A node's automaton matches what its words match, in texts of these colours. */
  lemma NodeMatches(c: Cnfa, X: Language, colors: seq<int>, t: Text, b: nat, e: nat)
    requires NodeOf(c, X, colors) && b <= e <= |t.col| && forall p :: 0 <= p < |t.col| ==> t.col[p] in colors
    ensures Matches(c, t, b, e) <==> LanguageMatches(c, t, X, b, e)
  {
    var x, w := FrameAt(c, t, b), MatchWord(c, t, b, e);
    assert Accepts(x, ArcsOf(c), w) <==> InFrame(x, colors, X, w);
    assert |w| - 1 == e - b + 1 && Opens(x, colors, w[0]) && Closes(x, colors, w[|w| - 1]);
    assert x == Placed(x, t.holds, b - 1);
    forall l ensures Spells(x, l, w, 1, |w| - 1) <==> LabelsMatch(c, t, l, b, e) {
      SpellsMatch(c, x, t, b, e, l, b);
    }
  }

  /** An automaton that speaks for a framed fragment is one for the fragment's words. */
  lemma NodeSpeaks(c: Cnfa, x: Frame, A: set<Arc>, colors: seq<int>, init: nat, final: nat, J: set<nat>)
    requires WellFormed(c) && Speaks(c, x, A) && c.bos == (x.bos0, x.bos1) && c.eos == (x.eos0, x.eos1)
    requires Framed(x, A, colors, init, final, J) && forall a :: a in ArcsOf(c) ==> a.to != c.pre
    ensures NodeOf(c, Lang(A, J, init, final), colors)
  {
    var X := Lang(A, J, init, final);
    forall holds: (int, int) -> bool, off: int, w
      ensures Accepts(FrameOf(c, holds, off), ArcsOf(c), w) <==> InFrame(FrameOf(c, holds, off), colors, X, w)
    {
      var y := Placed(x, holds, off);
      FramedAlike(x, y, A, colors, init, final, J);
      FramedAccepts(y, A, colors, init, final, J, w);
      InFrameAlike(y, FrameOf(c, holds, off), colors, X, w);
      assert Accepts(y, A, w) <==> Accepts(FrameOf(c, y.holds, y.off), ArcsOf(c), w);
    }
  }

  /** And it speaks for any other framed fragment with these words. */
  lemma NodeSpeaksForOthers(c: Cnfa, x: Frame, A: set<Arc>, colors: seq<int>, init: nat, final: nat, I: set<nat>)
    requires NodeOf(c, Lang(A, I, init, final), colors) && Framed(x, A, colors, init, final, I)
    requires c.bos == (x.bos0, x.bos1) && c.eos == (x.eos0, x.eos1)
    ensures Speaks(c, x, A)
  {
    forall y: Frame, w | Like(x, y) ensures Accepts(y, A, w) <==> Accepts(FrameOf(c, y.holds, y.off), ArcsOf(c), w) {
      FramedAlike(x, y, A, colors, init, final, I);
      FramedAccepts(y, A, colors, init, final, I, w);
      InFrameAlike(y, FrameOf(c, y.holds, y.off), colors, Lang(A, I, init, final), w);
    }
  }

  /** The search automaton made from the parser's NFA finds the matches of the root's
      automaton, which was made from a duplicate of the same fragment. */
  lemma SearchFitsRoot(c: Cnfa, s: Cnfa, x: Frame, A: set<Arc>, colors: seq<int>, init: nat, final: nat, I: set<nat>, t: Text)
    requires Framed(x, A, colors, init, final, I) && NodeOf(c, Lang(A, I, init, final), colors)
    requires WellFormed(s) && SpeaksSearch(s, x, A, colors)
    requires s.ncolors == c.ncolors && s.bos == c.bos == (x.bos0, x.bos1) && s.eos == c.eos == (x.eos0, x.eos1)
    requires Colored(c, t) && forall p :: 0 <= p < |t.col| ==> t.col[p] in colors
    ensures Finds(s, c, t)
  {
    NodeSpeaksForOthers(c, x, A, colors, init, final, I);
    SearchPair(c, s, x, A, colors, t);
  }

  /** Add the arcs of a frame. */
  method AddFrame(nfa: Nfa, colors: seq<int>, kind: Kind, from: nat, to: nat)
    requires nfa.Valid() && from in nfa.states && to in nfa.states
    modifies nfa`arcs
    ensures nfa.Valid() && nfa.arcs == old(nfa.arcs) + FrameArcs(colors, kind, from, to)
  {
    Rainbow(nfa, colors, from, to);
    nfa.NewArc(kind, 1, from, to);
    nfa.NewArc(kind, 0, from, to);
  }

  /** The arcs of a new NFA. */
  function NewArcs(colors: seq<int>, pre: nat, init: nat, final: nat, post: nat): set<Arc> {
    FrameArcs(colors, Begin, pre, init) + FrameArcs(colors, End, final, post)
  }

  /** A new NFA with an initial and a final state in its frame. */
  method NewNfa(colors: seq<int>, bos: (int, int), eos: (int, int)) returns (nfa: Nfa, init: nat, final: nat)
    requires NfaFrame(1, 0, bos, eos).Distinct()
    ensures fresh(nfa) && nfa.Valid() && nfa.Clean() && nfa.bos == bos && nfa.eos == eos && nfa.pre == 1 && nfa.post == 0
    ensures init in nfa.states && final in nfa.states && init != final && 1 < init < nfa.fresh_ && 1 < final < nfa.fresh_
    ensures nfa.arcs == NewArcs(colors, nfa.pre, init, final, nfa.post)
    ensures nfa.states == [0, 1, init, final] && init == 2 && final == 3
  {
    nfa := new Nfa(bos, eos);
    init := nfa.NewState();
    final := nfa.NewState();
    AddFrame(nfa, colors, Begin, nfa.pre, init);
    AddFrame(nfa, colors, End, final, nfa.post);
  }

  /** Colours that characters may have: in use, and no pseudocolours. */
  ghost predicate RealColors(x: Frame, colors: seq<int>, ncolors: nat) {
    && (forall co :: co in colors ==> x.Real(co) && 0 <= co < ncolors)
    && 0 <= x.bos0 < ncolors && 0 <= x.bos1 < ncolors && 0 <= x.eos0 < ncolors && 0 <= x.eos1 < ncolors
  }

  /** The arcs that a node is compiled from carry labels as the parser makes them. */
  ghost predicate ParserLabels(x: Frame, F: set<Arc>, ncolors: nat) {
    Ordinary(x, F) && forall a :: a in F ==> (a.kind == Plain ==> 0 <= a.co < ncolors) && (a.kind == Lacon ==> a.co > 0)
  }

  /** The new NFA, with arcs `G` hung into its frame by the states `J`. */
  ghost predicate HungIn(init: nat, final: nat, base: nat, J: set<nat>, G: set<Arc>) {
    && 1 < init < base && 1 < final < base && init != final && (forall u :: u in J ==> base <= u)
    && forall a :: a in G ==> (a.from == init || a.from in J) && (a.to == final || a.to in J)
  }

  lemma HungInFrame(x: Frame, colors: seq<int>, init: nat, final: nat, base: nat, J: set<nat>, G: set<Arc>)
    requires HungIn(init, final, base, J, G) && x.pre == 1 && x.post == 0
    ensures var B := NewArcs(colors, 1, init, final, 0) + G;
            Framed(x, B, colors, init, final, J) && Shaped(x, B) && Lang(B, J, init, final) == Lang(G, J, init, final)
  {
    LangSame(NewArcs(colors, 1, init, final, 0) + G, G, J, init, final);
  }

  lemma HungInLabels(x: Frame, colors: seq<int>, ncolors: nat, init: nat, final: nat, G: set<Arc>)
    requires RealColors(x, colors, ncolors) && ParserLabels(x, G, ncolors)
    ensures var B := NewArcs(colors, 1, init, final, 0) + G; Ordinary(x, B) && InRange(x, Labels(B), ncolors)
  {
    var B := NewArcs(colors, 1, init, final, 0) + G;
    forall l | l in Labels(B) ensures if l.0 == Plain then 0 <= l.1 < ncolors else l.0 == Lacon ==> l.1 > 0 {
      var b :| b in B && l == (b.kind, b.co);
    }
  }

  /** The words of a fragment; there is just the empty one if its ends are the same state. */
  ghost function FragmentWords(A: set<Arc>, I: set<nat>, begin: nat, end: nat): Language {
    if begin == end then JustEmpty() else Lang(A, I, begin, end)
  }

  /** The frame with a fragment in it, as the optimizer expects it. */
  ghost predicate HangsWell(x: Frame, B: set<Arc>, colors: seq<int>, ncolors: nat, init: nat, final: nat, J: set<nat>) {
    Framed(x, B, colors, init, final, J) && Shaped(x, B) && Ordinary(x, B) && InRange(x, Labels(B), ncolors)
  }

  // ----- where arcs other than PLAIN ones have no cycle

  /** The states of a fragment, ranked between those of the frame. */
  function RankInFrame(rank: nat -> nat, top: nat): nat -> nat {
    (s: nat) => if s == 1 then 0 else if s == 0 then top + 2 else if rank(s) < top then 1 + rank(s) else top + 1
  }

  lemma RankedInFrame(colors: seq<int>, init: nat, final: nat, base: nat, J: set<nat>, G: set<Arc>)
    requires HungIn(init, final, base, J, G) && Empties.Ranked(G)
    ensures Empties.Ranked(NewArcs(colors, 1, init, final, 0) + G)
  {
    var rank: nat -> nat :| Empties.Climbs(G, rank);
    var top := Weights.RankBound(G, rank);
    var B, r := NewArcs(colors, 1, init, final, 0) + G, RankInFrame(rank, top);
    forall b | b in B && b.kind != Plain ensures r(b.from) < r(b.to) && (b.kind == Empty ==> b.co == 0) {
      if b in G {
        assert rank(b.from) < top && rank(b.to) < top;
      } else {
        FrameRank(colors, init, final, rank, top, b);
      }
    }
    assert Empties.Climbs(B, r);
  }

  lemma FrameRank(colors: seq<int>, init: nat, final: nat, rank: nat -> nat, top: nat, b: Arc)
    requires b in NewArcs(colors, 1, init, final, 0) && 1 < init && 1 < final
    ensures b.kind != Empty && RankInFrame(rank, top)(b.from) < RankInFrame(rank, top)(b.to)
  {
  }

  /** A duplicate of a fragment in the frame of a new NFA. */
  lemma DuplicateHangs(A: set<Arc>, I: set<nat>, begin: nat, end: nat, G0: set<Arc>, colors: seq<int>, init: nat, final: nat,
                       R: set<nat>, no: map<nat, nat>, J: set<nat>, base: nat, hi: nat, B: set<Arc>, x: Frame, ncolors: nat)
    requires Enclosed(A, I, begin, end) && Duplicated(A, I, begin, end, G0, init, final, R, no, J, base, hi, B)
    requires G0 == NewArcs(colors, 1, init, final, 0) && 1 < init < base && 1 < final < base && init != final
    requires ParserLabels(x, A - Outside(A, begin, I), ncolors) && x.pre == 1 && x.post == 0 && RealColors(x, colors, ncolors)
    ensures HangsWell(x, B, colors, ncolors, init, final, J)
  {
    var F := A - Outside(A, begin, I);
    var G := set a | a in A && a.from in R :: Strung(a, no, begin, end, init, final);
    forall b | b in G ensures (b.from == init || b.from in J) && (b.to == final || b.to in J) {
      var a :| a in A && a.from in R && b == Strung(a, no, begin, end, init, final);
    }
    forall b | b in G ensures exists a :: a in F && a.kind == b.kind && a.co == b.co {
      var a :| a in A && a.from in R && b == Strung(a, no, begin, end, init, final);
      assert a in F;
    }
    assert HungIn(init, final, base, J, G);
    HungInFrame(x, colors, init, final, base, J, G);
    HungInLabels(x, colors, ncolors, init, final, G);
  }

  /** The frame with a fragment in it that has the words `X`; if arcs `F` other than PLAIN ones have
      no cycle, those in the frame have none. */
  ghost predicate HangsAs(x: Frame, B: set<Arc>, colors: seq<int>, ncolors: nat, init: nat, final: nat, J: set<nat>, F: set<Arc>, X: Language) {
    HangsWell(x, B, colors, ncolors, init, final, J) && Lang(B, J, init, final) == X && (Empties.Ranked(F) ==> Empties.Ranked(B))
  }

  /** Duplicate a fragment of the parser's NFA into a new one. */
  method HangIn(parent: Nfa, begin: nat, end: nat, ghost I: set<nat>, colors: seq<int>, ghost ncolors: nat)
    returns (nfa: Nfa, ghost init: nat, ghost final: nat, ghost J: set<nat>)
    requires parent.Valid() && parent.Clean() && RealColors(parent.Ctx(), colors, ncolors)
    requires begin == end || (Enclosed(parent.arcs, I, begin, end) && I + {begin, end} <= Members(parent.states))
    requires ParserLabels(parent.Ctx(), parent.arcs - Outside(parent.arcs, begin, I), ncolors)
    modifies parent`tmp
    ensures parent.Valid() && parent.Clean() && fresh(nfa) && nfa.Valid() && nfa.Clean() && nfa.bos == parent.bos && nfa.eos == parent.eos
    ensures HangsAs(nfa.Ctx(), nfa.arcs, colors, ncolors, init, final, J, old(parent.arcs) - Outside(old(parent.arcs), begin, I),
                    FragmentWords(old(parent.arcs), I, begin, end))
  {
    ghost var A := parent.arcs;
    var i, f;
    nfa, i, f := NewNfa(colors, parent.bos, parent.eos);
    init, final := i, f;
    ghost var G0, base := nfa.arcs, nfa.fresh_;
    ghost var R, no;
    R, no, J := DupNfa(parent, nfa, begin, end, i, f, I);
    ghost var y := nfa.Ctx();
    if begin == end {
      J := {};
      EmptyHungIn(A, begin, I, y, colors, ncolors, i, f, base);
    } else {
      DuplicateHungIn(A, I, begin, end, G0, colors, i, f, R, no, J, base, nfa.fresh_, nfa.arcs, y, ncolors);
    }
  }

  lemma EmptyRanked(colors: seq<int>, init: nat, final: nat, base: nat)
    requires 1 < init < base && 1 < final < base && init != final
    ensures Empties.Ranked(NewArcs(colors, 1, init, final, 0) + {EmptyArc(init, final)})
  {
    var G := {EmptyArc(init, final)};
    assert Empties.Climbs(G, (s: nat) => if s == final then 1 else 0);
    RankedInFrame(colors, init, final, base, {}, G);
  }

  lemma RankedDuplicate(A: set<Arc>, I: set<nat>, begin: nat, end: nat, G0: set<Arc>, colors: seq<int>, init: nat, final: nat,
                        R: set<nat>, no: map<nat, nat>, J: set<nat>, base: nat, hi: nat, B: set<Arc>)
    requires Enclosed(A, I, begin, end) && Duplicated(A, I, begin, end, G0, init, final, R, no, J, base, hi, B)
    requires G0 == NewArcs(colors, 1, init, final, 0) && 1 < init < base && 1 < final < base && init != final
    ensures Empties.Ranked(A - Outside(A, begin, I)) ==> Empties.Ranked(B)
  {
    var F := A - Outside(A, begin, I);
    if Empties.Ranked(F) {
      var G := set a | a in A && a.from in R :: Strung(a, no, begin, end, init, final);
      RankedCopies(A, F, G, R, no, begin, end, init, final);
      forall b | b in G ensures (b.from == init || b.from in J) && (b.to == final || b.to in J) {
        var a :| a in A && a.from in R && b == Strung(a, no, begin, end, init, final);
      }
      RankedInFrame(colors, init, final, base, J, G);
    }
  }

  lemma RankedCopies(A: set<Arc>, F: set<Arc>, G: set<Arc>, R: set<nat>, no: map<nat, nat>, begin: nat, end: nat, init: nat, final: nat)
    requires (forall u, v :: u in no && v in no && no[u] == no[v] ==> u == v) && no.Keys == R - {begin} && end !in R && init != final
    requires forall u :: u in no ==> no[u] != init && no[u] != final
    requires forall a :: a in A && a.from in R ==> a in F && (a.to == end || (a.to in R && a.to != begin))
    requires G == (set a | a in A && a.from in R :: Strung(a, no, begin, end, init, final)) && F <= A && Empties.Ranked(F)
    ensures Empties.Ranked(G)
  {
    forall b | b in G ensures exists a :: a in F && a.from in R && b == Strung(a, no, begin, end, init, final) {
      var a :| a in A && a.from in R && b == Strung(a, no, begin, end, init, final);
      assert a in F;
    }
    CopiesAreImages(F, G, R, no, begin, end, init, final);
    RankedImage(F, G, Originals(no, begin, end, init, final));
  }

  /** A single EMPTY arc in the frame. */
  lemma EmptyHangs(x: Frame, colors: seq<int>, ncolors: nat, init: nat, final: nat, base: nat)
    requires x.pre == 1 && x.post == 0 && RealColors(x, colors, ncolors) && 1 < init < base && 1 < final < base && init != final
    ensures HangsWell(x, NewArcs(colors, 1, init, final, 0) + {EmptyArc(init, final)}, colors, ncolors, init, final, {})
    ensures Lang(NewArcs(colors, 1, init, final, 0) + {EmptyArc(init, final)}, {}, init, final) == JustEmpty()
  {
    var G := {EmptyArc(init, final)};
    assert ParserLabels(x, G, ncolors) && HungIn(init, final, base, {}, G);
    HungInFrame(x, colors, init, final, base, {}, G);
    HungInLabels(x, colors, ncolors, init, final, G);
    JustOneArc(init, final);
  }

  lemma EmptyHungIn(A: set<Arc>, begin: nat, I: set<nat>, x: Frame, colors: seq<int>, ncolors: nat, init: nat, final: nat, base: nat)
    requires x.pre == 1 && x.post == 0 && RealColors(x, colors, ncolors) && 1 < init < base && 1 < final < base && init != final
    ensures HangsAs(x, NewArcs(colors, 1, init, final, 0) + {EmptyArc(init, final)}, colors, ncolors, init, final, {},
                    A - Outside(A, begin, I), JustEmpty())
  {
    EmptyHangs(x, colors, ncolors, init, final, base);
    EmptyRanked(colors, init, final, base);
  }

  lemma DuplicateHungIn(A: set<Arc>, I: set<nat>, begin: nat, end: nat, G0: set<Arc>, colors: seq<int>, init: nat, final: nat,
                        R: set<nat>, no: map<nat, nat>, J: set<nat>, base: nat, hi: nat, B: set<Arc>, x: Frame, ncolors: nat)
    requires Enclosed(A, I, begin, end) && Duplicated(A, I, begin, end, G0, init, final, R, no, J, base, hi, B)
    requires G0 == NewArcs(colors, 1, init, final, 0) && 1 < init < base && 1 < final < base && init != final
    requires ParserLabels(x, A - Outside(A, begin, I), ncolors) && x.pre == 1 && x.post == 0 && RealColors(x, colors, ncolors)
    ensures HangsAs(x, B, colors, ncolors, init, final, J, A - Outside(A, begin, I), Lang(A, I, begin, end))
  {
    DuplicateHangs(A, I, begin, end, G0, colors, init, final, R, no, J, base, hi, B, x, ncolors);
    DuplicateInFrame(A, I, begin, end, G0, colors, init, final, R, no, J, base, hi, B);
    RankedDuplicate(A, I, begin, end, G0, colors, init, final, R, no, J, base, hi, B);
  }

  lemma JustOneArc(i: nat, f: nat)
    requires i != f
    ensures Lang({EmptyArc(i, f)}, {}, i, f) == JustEmpty()
  {
    var G := {EmptyArc(i, f)};
    OneArc(G, {}, EmptyArc(i, f));
    InLang(G, {}, i, f, [], 1);
    forall l: seq<Label> ensures l in Lang(G, {}, i, f) <==> l in JustEmpty() {
      if n: nat :| Through(G, {}, i, f, l, n) {
        var a := FirstArc(G, {}, i, f, l, n);
      }
    }
    Same(Lang(G, {}, i, f), JustEmpty());
  }

  lemma DuplicateInFrame(A: set<Arc>, I: set<nat>, begin: nat, end: nat, G0: set<Arc>, colors: seq<int>, init: nat, final: nat,
                         R: set<nat>, no: map<nat, nat>, J: set<nat>, base: nat, hi: nat, B: set<Arc>)
    requires Enclosed(A, I, begin, end) && Duplicated(A, I, begin, end, G0, init, final, R, no, J, base, hi, B)
    requires G0 == NewArcs(colors, 1, init, final, 0) && 1 < init < base && 1 < final < base && init != final
    ensures Lang(B, J, init, final) == Lang(A, I, begin, end)
  {
    DuplicateSpeaksAlike(A, I, begin, end, G0, init, final, R, no, J, base, hi, B);
  }

  /** Compile one node of the tree. */
  method NodeNfa(parent: Nfa, begin: nat, end: nat, ghost I: set<nat>, colors: seq<int>, ncolors: nat, bound: Empties.Bound)
    returns (finished: bool, c: Cnfa)
    requires parent.Valid() && parent.Clean() && RealColors(parent.Ctx(), colors, ncolors)
    requires begin == end || (Enclosed(parent.arcs, I, begin, end) && I + {begin, end} <= Members(parent.states))
    requires ParserLabels(parent.Ctx(), parent.arcs - Outside(parent.arcs, begin, I), ncolors)
    requires bound.Unbounded? ==> Empties.Ranked(parent.arcs - Outside(parent.arcs, begin, I))
    modifies parent`tmp
    ensures parent.Valid() && parent.Clean() && (bound.Unbounded? ==> finished)
    ensures finished ==> NodeOf(c, FragmentWords(old(parent.arcs), I, begin, end), colors)
    ensures finished ==> c.ncolors == ncolors && c.bos == parent.bos && c.eos == parent.eos
  {
    ghost var X := FragmentWords(parent.arcs, I, begin, end);
    var nfa;
    ghost var init, final, J;
    nfa, init, final, J := HangIn(parent, begin, end, I, colors, ncolors);
    ghost var x, A := nfa.Ctx(), nfa.arcs;
    var info;
    finished, info, c := NfaNode(nfa, ncolors, bound);
    if finished {
      NodeSpeaks(c, x, A, colors, init, final, J);
    }
  }
}

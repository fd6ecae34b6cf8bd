/** From tokens to what the executor runs: the parts of the compiler in a row. */
module CompileRe {
  import opened Automaton
  import Empties
  import Weights
  import opened Ways
  import opened Climbing
  import opened Surgery
  import opened NfaModel
  import opened Cleanup
  import opened Constraints
  import opened CompactNfa
  import opened Simulation
  import opened Compile
  import opened Fragments
  import opened Framing
  import opened NodeBuild
  import opened TreeBuild
  import opened Dissection
  import opened Grammar
  import opened Parser
  import Reaching
  import opened Syntax
  import opened Meaning
  import Execute

  /** The tokens stand for colours in use, string ends, and lookahead constraints. */
  ghost predicate TokensFit(ts: seq<Token>, x: Frame, ncolors: nat) {
    forall t, lab :: t in ts && lab in TokenLabels(t) ==> LabelFits(lab, x, ncolors)
  }

  predicate LabelFits(lab: Label, x: Frame, ncolors: nat) {
    match lab.0
    case Plain => x.Real(lab.1) && 0 <= lab.1 < ncolors
    case Behind => x.Real(lab.1)
    case Ahead => x.Real(lab.1)
    case Lacon => lab.1 > 0
    case Empty => true
    case _ => lab.1 == 0 || lab.1 == 1
  }

  /** The parsed fragment in the frame of the NFA. */
  lemma ParsedHangs(x: Frame, ts: seq<Token>, colors: seq<int>, ncolors: nat, I: set<nat>, X: Language, S: set<nat>, B: set<Arc>, T: set<nat>)
    requires x.pre == 1 && x.post == 0 && RealColors(x, colors, ncolors) && TokensFit(ts, x, ncolors)
    requires S == {0, 1, 2, 3} && Built(NewArcs(colors, 1, 2, 3, 0), S, 2, 3, I, X, B, T)
    requires Sourced(ts, NewArcs(colors, 1, 2, 3, 0), B)
    ensures HangsWell(x, B, colors, ncolors, 2, 3, I) && ParserLabels(x, B - Outside(B, 2, I), ncolors)
  {
    var G := B - Outside(B, 2, I);
    ParsedLabels(x, ts, colors, ncolors, B, G);
    forall u | u in I ensures 4 <= u { assert u !in S; }
    assert HungIn(2, 3, 4, I, G);
    HungInFrame(x, colors, 2, 3, 4, I, G);
    HungInLabels(x, colors, ncolors, 2, 3, G);
    assert B == NewArcs(colors, 1, 2, 3, 0) + G;
  }

  lemma ParsedLabels(x: Frame, ts: seq<Token>, colors: seq<int>, ncolors: nat, B: set<Arc>, G: set<Arc>)
    requires RealColors(x, colors, ncolors) && TokensFit(ts, x, ncolors) && Sourced(ts, NewArcs(colors, 1, 2, 3, 0), B) && G <= B
    ensures ParserLabels(x, G, ncolors)
  {
    var A := NewArcs(colors, 1, 2, 3, 0);
    forall b | b in G ensures LabelFits((b.kind, b.co), x, ncolors) {
      if FromTokens(ts, b.kind, b.co) {
        var t :| t in ts && (b.kind, b.co) in TokenLabels(t);
      } else if LabelOf(b) != [] {
        var a :| a in A && a.kind == b.kind && a.co == b.co;
      }
    }
  }

  /** A string in the colours in use. */
  predicate WrittenIn(txt: Text, colors: seq<int>) { forall p :: 0 <= p < |txt.col| ==> txt.col[p] in colors }

  /** Compiled from an expression with the words `X`: fit for the executor, and accepting just what
      a word says, in every string of the colours in use. */
  ghost predicate Compiled(t: Subre, s: Cnfa, X: Language, colors: seq<int>) {
    t.Subre? && forall txt :: WrittenIn(txt, colors) ==> Execute.Ready(s, t, txt) && AcceptsSaid(t, X, txt)
  }

  ghost predicate AcceptsSaid(t: Subre, X: Language, txt: Text) { forall b, e :: Accepted(t, txt, b, e) <==> SaidAt(X, txt, b, e) }

  /** The words of the fragment have no pseudocolours. */
  lemma WordsHaveNoEndMarks(c: Cnfa, x: Frame, A: set<Arc>, I: set<nat>, init: nat, final: nat, ncolors: nat)
    requires c.bos == (x.bos0, x.bos1) && c.eos == (x.eos0, x.eos1) && ParserLabels(x, A - Outside(A, init, I), ncolors)
    ensures OrdinaryWords(c, Lang(A, I, init, final))
  {
    forall l, lab | l in Lang(A, I, init, final) && lab in l ensures NoEndMark(c, lab) {
      LangLabels(A, I, init, final, l, lab);
      var a :| a in Reaching.Within(A, init, I) && lab == (a.kind, a.co);
      assert a in A - Outside(A, init, I);
    }
  }

  /** What has been compiled fits together. */
  ghost predicate Fits(t: Subre, s: Cnfa, X: Language, x: Frame, A: set<Arc>, colors: seq<int>, ncolors: nat, init: nat, final: nat, I: set<nat>) {
    && Framed(x, A, colors, init, final, I) && WellFormed(s) && SpeaksSearch(s, x, A, colors)
    && t.Subre? && t.op == '=' && t.left.Null? && t.right.Null? && NodeOf(t.cnfa, X, colors) && Lang(A, I, init, final) == X
    && SameSymbols(s, t.cnfa) && t.cnfa.bos == (x.bos0, x.bos1) && t.cnfa.eos == (x.eos0, x.eos1) && t.cnfa.ncolors == ncolors
    && x.Distinct() && RealColors(x, colors, ncolors) && ParserLabels(x, A - Outside(A, init, I), ncolors)
  }

  lemma PartsFit(t: Subre, s: Cnfa, X: Language, x: Frame, A: set<Arc>, colors: seq<int>, ncolors: nat, init: nat, final: nat, I: set<nat>)
    requires Fits(t, s, X, x, A, colors, ncolors, init, final, I)
    ensures Compiled(t, s, X, colors)
  {
    forall txt | WrittenIn(txt, colors) ensures Execute.Ready(s, t, txt) && AcceptsSaid(t, X, txt) {
      assert TextFits(t.cnfa, colors, txt);
      CompiledIsReady(t, s, x, A, colors, init, final, I, txt);
      WordsSaid(t, s, X, x, A, colors, ncolors, init, final, I, txt);
    }
  }

  lemma WordsSaid(t: Subre, s: Cnfa, X: Language, x: Frame, A: set<Arc>, colors: seq<int>, ncolors: nat, init: nat, final: nat, I: set<nat>, txt: Text)
    requires Fits(t, s, X, x, A, colors, ncolors, init, final, I) && TextFits(t.cnfa, colors, txt)
    ensures AcceptsSaid(t, X, txt)
  {
    NodeAccepts(t, X, colors, t.cnfa, txt);
    WordsHaveNoEndMarks(t.cnfa, x, A, I, init, final, ncolors);
    forall b, e ensures Accepted(t, txt, b, e) <==> SaidAt(X, txt, b, e) {
      if 0 <= b <= e <= |txt.col| { LanguageIsSaying(t.cnfa, txt, X, b, e); }
    }
  }

  /** Compile an expression without captures and back references. The tokens are refused exactly if
      there is a fault in them, for the first one; otherwise they are those of an expression, and
      what comes out accepts, in every string of the colours in use, just what its words say. If all
      that is repeated without bound reads characters, it finishes without a bound on the passes. */
  method CompileTokens(ts: seq<Token>, extended: bool, shorter: bool, colors: seq<int>, bos: (int, int), eos: (int, int), ncolors: nat, bound: Empties.Bound)
    returns (r: Result, finished: bool, t: Subre, s: Cnfa)
    requires Lexed(ts) && NfaFrame(1, 0, bos, eos).Distinct()
    requires RealColors(NfaFrame(1, 0, bos, eos), colors, ncolors) && TokensFit(ts, NfaFrame(1, 0, bos, eos), ncolors)
    requires bound.Unbounded? ==> forall e :: Expresses(ts, e, extended) ==> TameExpr(e)
    ensures bound.Unbounded? && r.Done? ==> finished
    ensures forall e :: r == Bad(e) <==> FirstFault(ts, 0, e, extended)
    ensures r.Done? <==> exists e :: Expresses(ts, e, extended)
    ensures r.Done? ==> r.next == |ts|
    ensures r.Done? && finished ==> t.Subre? && t.shorter == shorter
    ensures forall e :: r.Done? && finished && Expresses(ts, e, extended) ==> Compiled(t, s, ExprMeans(e), colors)
  {
    finished, t, s := false, Null, Cnfa(0, 0, 0, 0, (0, 0), (0, 0), false, [], []);
    var nfa;
    ghost var I;
    r, nfa, I := ParseTokens(ts, extended, colors, bos, eos, ncolors);
    RefusedForFirstFault(ts, extended);
    ReadsExpressions(ts, extended);
    if r.Done? {
      ghost var re := ReAt(ts, 0, false, extended).re;
      if bound.Unbounded? { TameRead(ts, extended); }
      finished, t, s := CompileNfa(nfa, re, I, shorter, colors, ncolors, bound);
    }
  }

  /** What the second half of the compiler starts from: a fragment with the words of the expression. */
  ghost predicate Parses(nfa: Nfa, re: Re, I: set<nat>, colors: seq<int>, ncolors: nat)
    reads nfa
  {
    && nfa.Valid() && nfa.Clean() && 2 in nfa.states && 3 in nfa.states && RealColors(nfa.Ctx(), colors, ncolors)
    && HangsWell(nfa.Ctx(), nfa.arcs, colors, ncolors, 2, 3, I) && ParserLabels(nfa.Ctx(), nfa.arcs - Outside(nfa.arcs, 2, I), ncolors)
    && Lang(nfa.arcs, I, 2, 3) == Words(re) && I <= Members(nfa.states)
  }

  /** Parse the tokens into a new NFA. */
  method ParseTokens(ts: seq<Token>, extended: bool, colors: seq<int>, bos: (int, int), eos: (int, int), ncolors: nat)
    returns (r: Result, nfa: Nfa, ghost I: set<nat>)
    requires Lexed(ts) && NfaFrame(1, 0, bos, eos).Distinct()
    requires RealColors(NfaFrame(1, 0, bos, eos), colors, ncolors) && TokensFit(ts, NfaFrame(1, 0, bos, eos), ncolors)
    ensures fresh(nfa)
    ensures match ReAt(ts, 0, false, extended)
            case Failed(e) => r == Bad(e)
            case Parsed(re, _) => r == Done(|ts|) && Parses(nfa, re, I, colors, ncolors) && (Tame(re) ==> Empties.Ranked(nfa.arcs))
  {
    var init, final;
    nfa, init, final := NewNfa(colors, bos, eos);
    ghost var A, S := nfa.arcs, Members(nfa.states);
    NewCanString(colors, S);
    r, I := Parse(nfa, ts, 0, false, extended, init, final);
    if r.Done? {
      ghost var X := Words(ReAt(ts, 0, false, extended).re);
      ParsedHangs(nfa.Ctx(), ts, colors, ncolors, I, X, S, nfa.arcs, Members(nfa.states));
      ParsedRanked(colors, I, X, S, nfa.arcs, Members(nfa.states), Tame(ReAt(ts, 0, false, extended).re));
    }
  }

  /** Where the fragment is supple, what hangs in the frame has no cycle of arcs other than PLAIN ones. */
  lemma ParsedRanked(colors: seq<int>, I: set<nat>, X: Language, S: set<nat>, B: set<Arc>, T: set<nat>, t: bool)
    requires S == {0, 1, 2, 3} && Built(NewArcs(colors, 1, 2, 3, 0), S, 2, 3, I, X, B, T) && SuppleIf(t, B, I, 2, 3, X)
    ensures t ==> Empties.Ranked(B)
  {
    var G := Reaching.Within(B, 2, I);
    forall u | u in I ensures 4 <= u { assert u !in S; }
    assert HungIn(2, 3, 4, I, G);
    assert B == NewArcs(colors, 1, 2, 3, 0) + G by {
      forall b ensures b in B <==> b in NewArcs(colors, 1, 2, 3, 0) + G { assert b in Outside(B, 2, I) <==> b in B && b !in G; }
    }
    OpenSuppleIf(t, B, I, 2, 3, X);
    if t {
      SuppleIsRanked(G, 2, 3, Way(X));
      RankedInFrame(colors, 2, 3, 4, I, G);
    }
  }

  lemma TameRead(ts: seq<Token>, extended: bool)
    requires ReAt(ts, 0, false, extended).Parsed? && forall e :: Expresses(ts, e, extended) ==> TameExpr(e)
    ensures Tame(ReAt(ts, 0, false, extended).re)
  {
    ReadsExpressions(ts, extended);
    var e :| Expresses(ts, e, extended);
    TameIsRead(ts, e, extended);
  }

  lemma NewCanString(colors: seq<int>, S: set<nat>)
    requires S == {0, 1, 2, 3}
    ensures CanString(NewArcs(colors, 1, 2, 3, 0), S, 2, 3)
  {
  }

  /** The automaton of the tree, and then, the NFA being sacrificed, the one for the search. */
  method CompileNfa(nfa: Nfa, ghost re: Re, ghost I: set<nat>, shorter: bool, colors: seq<int>, ncolors: nat, bound: Empties.Bound)
    returns (finished: bool, t: Subre, s: Cnfa)
    requires Parses(nfa, re, I, colors, ncolors) && (bound.Unbounded? ==> Empties.Ranked(nfa.arcs))
    modifies nfa`states, nfa`arcs, nfa`fresh_, nfa`no, nfa`nstates, nfa`tmp
    ensures finished ==> Compiled(t, s, Words(re), colors) && t.shorter == shorter
    ensures bound.Unbounded? ==> finished
  {
    ghost var x, A := nfa.Ctx(), nfa.arcs;
    if bound.Unbounded? { Weights.RankedFewer(A, A - Outside(A, 2, I)); }
    s := Cnfa(0, 0, 0, 0, (0, 0), (0, 0), false, [], []);
    var c;
    finished, c := NodeNfa(nfa, 2, 3, I, colors, ncolors, bound);
    t := Subre('=', shorter, 0, Null, Null, c);
    if finished {
      finished, s := SearchNode(nfa, colors, ncolors, bound);
    }
    if finished {
      PartsFit(t, s, Words(re), x, A, colors, ncolors, 2, 3, I);
    }
  }

  // ----- what matching comes to

  /** Some match is found exactly if a word of the expression holds somewhere. */
  lemma MatchIsWord(t: Subre, s: Cnfa, X: Language, colors: seq<int>, txt: Text)
    requires Compiled(t, s, X, colors) && WrittenIn(txt, colors)
    ensures Execute.SomeMatch(t, txt) <==> exists b, e :: SaidAt(X, txt, b, e)
  {
    assert AcceptsSaid(t, X, txt);
  }

  /** What is reported as the whole match is said by a word at the least possible start, and of what
      is said from there the longest, or the shortest if that is preferred. */
  lemma ReportedIsPreferred(t: Subre, s: Cnfa, X: Language, colors: seq<int>, txt: Text, b: nat, e: nat, p: seq<(int, int)>)
    requires Compiled(t, s, X, colors) && WrittenIn(txt, colors)
    requires Composed(t, txt) && Execute.Answer(t, txt, b, e, p) && |p| > 0
    ensures p[0] == (b, e) && SaidAt(X, txt, b, e)
    ensures forall i, j :: SaidAt(X, txt, i, j) ==> b <= i
    ensures forall j :: SaidAt(X, txt, b, j) ==> if t.shorter then e <= j else j <= e
  {
    Execute.WholeMatch(t, txt, b, e, p);
    assert Execute.Ready(s, t, txt) && AcceptsSaid(t, X, txt);
    assert forall i, j :: SaidAt(X, txt, i, j) ==> Accepted(t, txt, i, j);
  }

  /** An expression all of whose words begin with '^' is found at the beginning of the string only,
      and only without REG_NOTBOL; and there it is found if the rest of a word holds. */
  lemma FoundAtBegin(t: Subre, s: Cnfa, X: Language, colors: seq<int>, txt: Text)
    requires Compiled(t, s, X, colors) && WrittenIn(txt, colors) && forall l :: l in X ==> l != [] && l[0] == (Begin, 1)
    ensures forall b, e :: SaidAt(X, txt, b, e) ==> b == 0
    ensures Execute.SomeMatch(t, txt) <==> !txt.notbol && exists l, e: nat :: l in X && RestSays(txt, l, e)
  {
    MatchIsWord(t, s, X, colors, txt);
    forall b, e ensures SaidAt(X, txt, b, e) <==> b == 0 && !txt.notbol && 0 <= e && exists l :: l in X && RestSays(txt, l, e) {
      SaidAtBegin(X, txt, b, e);
    }
    if l, e: nat :| l in X && RestSays(txt, l, e) && !txt.notbol { assert SaidAt(X, txt, 0, e); }
  }

  function Caret(a: int): Expr { Only(Then(Fixed({(Begin, 1)}), Then(Single({(Plain, a)}, Once), Over))) }

  lemma CaretMeans(a: int)
    ensures OfExpr(Caret(a)) == [Constraint({(Begin, 1)}), Atom({(Plain, a)})]
    ensures ExprMeans(Caret(a)) == iset{[(Begin, 1), (Plain, a)]}
  {
    var p := Single({(Plain, a)}, Once);
    assert OfPiece(p) == [Atom({(Plain, a)})] && OfBranch(Then(p, Over)) == [Atom({(Plain, a)})];
    assert OfBranch(Then(Fixed({(Begin, 1)}), Then(p, Over))) == [Constraint({(Begin, 1)})] + [Atom({(Plain, a)})];
    var plain, begin: seq<Label> := [(Plain, a)], [(Begin, 1)];
    ThenMeans(p, Over, plain, []);
    assert plain + [] == plain;
    ThenMeans(Fixed({(Begin, 1)}), Then(p, Over), begin, plain);
    assert begin + plain == [(Begin, 1), (Plain, a)];
  }

  lemma ThenMeans(p: Piece, rest: Branch, v: seq<Label>, w: seq<Label>)
    requires (forall l :: l in PieceMeans(p) <==> l == v) && forall l :: l in BranchMeans(rest) <==> l == w
    ensures BranchMeans(Then(p, rest)) == iset{v + w}
  {
    forall l: seq<Label> ensures l in BranchMeans(Then(p, rest)) <==> l == v + w {
      assert v in PieceMeans(p) && w in BranchMeans(rest);
    }
    Same(BranchMeans(Then(p, rest)), iset{v + w});
  }

  /** `^a` is found exactly in strings that begin with `a`, without REG_NOTBOL. */
  lemma CaretIsFound(t: Subre, s: Cnfa, a: int, colors: seq<int>, txt: Text)
    requires Compiled(t, s, ExprMeans(Caret(a)), colors) && WrittenIn(txt, colors)
    ensures Execute.SomeMatch(t, txt) <==> !txt.notbol && txt.col != [] && txt.col[0] == a
  {
    var word: seq<Label> := [(Begin, 1), (Plain, a)];
    CaretMeans(a);
    FoundAtBegin(t, s, ExprMeans(Caret(a)), colors, txt);
    forall e: nat ensures RestSays(txt, word, e) <==> e == 1 && txt.col != [] && txt.col[0] == a {
      var rest := word[1..];
      assert rest == [(Plain, a)] && rest[1..] == [];
      assert Says(txt, rest, 0, e) <==> Passes(txt, rest[0], 0) && Says(txt, rest[1..], 1, e);
      assert Passes(txt, rest[0], 0) ==> (Says(txt, rest[1..], 1, e) <==> e == 1);
    }
    assert word in ExprMeans(Caret(a));
    if txt.col != [] && txt.col[0] == a { assert RestSays(txt, word, 1); }
  }
}

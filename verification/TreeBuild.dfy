/** The tree of subexpressions: compiled from fragments whose words compose, it is what
    dissection needs. */
module TreeBuild {
  import opened CompactNfa
  import opened Simulation
  import opened CacheRoom
  import opened Fragments
  import opened Framing
  import opened NodeBuild
  import opened Dissection
  import opened Execute
  import opened Automaton
  import opened Compile

  /** A concatenation matches where a split matches. */
  lemma CatMatches(c: Cnfa, t: Text, X: Language, Y: Language, b: nat, e: nat)
    ensures LanguageMatches(c, t, Cat(X, Y), b, e) <==> exists m: nat :: LanguageMatches(c, t, X, b, m) && LanguageMatches(c, t, Y, m, e)
  {
    if LanguageMatches(c, t, Cat(X, Y), b, e) {
      var l :| l in Cat(X, Y) && LabelsMatch(c, t, l, b, e);
      var i :| 0 <= i <= |l| && l[..i] in X && l[i..] in Y;
      var m := LabelsSplit(c, t, l, i, b, e);
      assert LanguageMatches(c, t, X, b, m) && LanguageMatches(c, t, Y, m, e);
    }
    if m: nat :| LanguageMatches(c, t, X, b, m) && LanguageMatches(c, t, Y, m, e) {
      var p :| p in X && LabelsMatch(c, t, p, b, m);
      var q :| q in Y && LabelsMatch(c, t, q, m, e);
      InCat(X, Y, p, q);
      LabelsJoin(c, t, p, q, b, m, e);
    }
  }

  lemma {:induction false} LabelsSplit(c: Cnfa, t: Text, l: seq<Label>, i: nat, b: nat, e: nat) returns (m: nat)
    requires i <= |l| && LabelsMatch(c, t, l, b, e)
    ensures LabelsMatch(c, t, l[..i], b, m) && LabelsMatch(c, t, l[i..], m, e)
    decreases |l|
  {
    if i == 0 {
      m := b;
      assert l[0..] == l;
    } else {
      m := LabelsSplit(c, t, l[1..], i - 1, b + LabelWidth(l[0]), e);
      assert l[..i][1..] == l[1..][..i - 1] && l[1..][i - 1..] == l[i..];
    }
  }

  lemma {:induction false} LabelsJoin(c: Cnfa, t: Text, p: seq<Label>, q: seq<Label>, b: nat, m: nat, e: nat)
    requires LabelsMatch(c, t, p, b, m) && LabelsMatch(c, t, q, m, e)
    ensures LabelsMatch(c, t, p + q, b, e)
    decreases |p|
  {
    if p == [] {
      assert p + q == q;
    } else {
      LabelsJoin(c, t, p[1..], q, b + LabelWidth(p[0]), m, e);
      assert (p + q)[1..] == p[1..] + q;
    }
  }

  /** Both or either. */
  lemma SumMatches(c: Cnfa, t: Text, X: Language, Y: Language, b: nat, e: nat)
    ensures LanguageMatches(c, t, X + Y, b, e) <==> LanguageMatches(c, t, X, b, e) || LanguageMatches(c, t, Y, b, e)
  {
  }

  ghost predicate SameSymbols(c: Cnfa, d: Cnfa) { c.bos == d.bos && c.eos == d.eos && c.ncolors == d.ncolors }

  lemma {:induction false} LabelsMatchAlike(c: Cnfa, d: Cnfa, t: Text, l: seq<Label>, p: nat, q: nat)
    requires SameSymbols(c, d)
    ensures LabelsMatch(c, t, l, p, q) <==> LabelsMatch(d, t, l, p, q)
    decreases |l|
  {
    if l != [] && p <= |t.col| {
      assert Readable(c, t, l[0], p) <==> Readable(d, t, l[0], p);
      LabelsMatchAlike(c, d, t, l[1..], p + LabelWidth(l[0]), q);
    }
  }

  lemma MatchesAlike(c: Cnfa, d: Cnfa, t: Text, X: Language, p: nat, q: nat)
    requires SameSymbols(c, d)
    ensures LanguageMatches(c, t, X, p, q) <==> LanguageMatches(d, t, X, p, q)
  {
    forall l ensures LabelsMatch(c, t, l, p, q) <==> LabelsMatch(d, t, l, p, q) { LabelsMatchAlike(c, d, t, l, p, q); }
  }

  /** The tree `t` was compiled from fragments whose words compose to `X`; `root` tells
      the pseudocolours. */
  ghost predicate Describes(t: Subre, X: Language, colors: seq<int>, root: Cnfa)
    decreases t, 1
  {
    t.Subre? && NodeOf(t.cnfa, X, colors) && SameSymbols(t.cnfa, root) && match t.op
      case '=' => t.left.Null? && t.right.Null?
      case '.' => exists Y, Z :: X == Cat(Y, Z) && Describes(t.left, Y, colors, root) && Describes(t.right, Z, colors, root)
      case '(' => t.subno > 0 && t.right.Null? && Describes(t.left, X, colors, root)
      case '|' => DescribesChain(t, X, colors, root)
      case _ => false
  }

  /** The same for a chain of alternatives. */
  ghost predicate DescribesChain(t: Subre, X: Language, colors: seq<int>, root: Cnfa)
    decreases t, 0
  {
    if t.Null? then X == iset{}
    else t.op == '|' && exists Y, Z :: X == Y + Z && Describes(t.left, Y, colors, root) && DescribesChain(t.right, Z, colors, root)
  }

  /** A text in the colours that the expression was compiled for. */
  ghost predicate TextFits(root: Cnfa, colors: seq<int>, txt: Text) {
    Colored(root, txt) && forall p :: 0 <= p < |txt.col| ==> txt.col[p] in colors
  }

  /** `t` accepts what `X` matches. */
  ghost predicate AcceptsWords(t: Subre, txt: Text, X: Language, root: Cnfa) {
    forall b, e :: Accepted(t, txt, b, e) <==> 0 <= b <= e <= |txt.col| && LanguageMatches(root, txt, X, b, e)
  }

  lemma NodeAccepts(t: Subre, X: Language, colors: seq<int>, root: Cnfa, txt: Text)
    requires t.Subre? && NodeOf(t.cnfa, X, colors) && SameSymbols(t.cnfa, root) && TextFits(root, colors, txt)
    ensures AcceptsWords(t, txt, X, root) && Runs(t, txt)
  {
    forall b, e ensures Accepted(t, txt, b, e) <==> 0 <= b <= e <= |txt.col| && LanguageMatches(root, txt, X, b, e) {
      if 0 <= b <= e <= |txt.col| {
        NodeMatches(t.cnfa, X, colors, txt, b, e);
        MatchesAlike(t.cnfa, root, txt, X, b, e);
      }
    }
  }

  /** Where a concatenation is accepted, and only there, a split is feasible. */
  lemma SplitsCompose(t: Subre, X: Language, Y: Language, Z: Language, root: Cnfa, txt: Text, b: int, e: int)
    requires t.Subre? && X == Cat(Y, Z)
    requires AcceptsWords(t, txt, X, root) && AcceptsWords(t.left, txt, Y, root) && AcceptsWords(t.right, txt, Z, root)
    ensures Accepted(t, txt, b, e) <==> exists m :: Feasible(t, txt, b, m, e)
  {
    if 0 <= b <= e <= |txt.col| {
      CatMatches(root, txt, Y, Z, b, e);
      if m: nat :| LanguageMatches(root, txt, Y, b, m) && LanguageMatches(root, txt, Z, m, e) {
        MatchesBounds(root, txt, Y, b, m);
        MatchesBounds(root, txt, Z, m, e);
        assert Feasible(t, txt, b, m, e);
      }
    }
    if m :| Feasible(t, txt, b, m, e) {
      assert LanguageMatches(root, txt, Y, b, m) && LanguageMatches(root, txt, Z, m, e);
    }
  }

  lemma MatchesBounds(c: Cnfa, t: Text, X: Language, p: nat, q: nat)
    requires LanguageMatches(c, t, X, p, q)
    ensures p <= q <= |t.col|
  {
    var l :| l in X && LabelsMatch(c, t, l, p, q);
    LabelsMatchBounds(c, t, l, p, q);
  }

  /** A tree compiled from composing fragments is fit for dissection, and accepts what
      the words of the whole match. */
  lemma {:induction false} DescribedIsComposed(t: Subre, X: Language, colors: seq<int>, root: Cnfa, txt: Text)
    requires Describes(t, X, colors, root) && TextFits(root, colors, txt)
    ensures Composed(t, txt) && Runs(t, txt) && AcceptsWords(t, txt, X, root)
    decreases t, 1
  {
    NodeAccepts(t, X, colors, root, txt);
    if t.op == '.' {
      var Y, Z :| X == Cat(Y, Z) && Describes(t.left, Y, colors, root) && Describes(t.right, Z, colors, root);
      DescribedIsComposed(t.left, Y, colors, root, txt);
      DescribedIsComposed(t.right, Z, colors, root, txt);
      forall b, e ensures Accepted(t, txt, b, e) <==> exists m :: Feasible(t, txt, b, m, e) {
        SplitsCompose(t, X, Y, Z, root, txt, b, e);
      }
    } else if t.op == '(' {
      DescribedIsComposed(t.left, X, colors, root, txt);
    } else if t.op == '|' {
      DescribedChain(t, X, colors, root, txt);
      forall b, e ensures Accepted(t, txt, b, e) <==> SomeAlternative(t, txt, b, e) {
        assert SomeAlternative(t, txt, b, e) <==> 0 <= b <= e <= |txt.col| && LanguageMatches(root, txt, X, b, e);
      }
    }
  }

  lemma {:induction false} DescribedChain(t: Subre, X: Language, colors: seq<int>, root: Cnfa, txt: Text)
    requires DescribesChain(t, X, colors, root) && TextFits(root, colors, txt)
    ensures Chained(t, txt)
    ensures forall b, e :: SomeAlternative(t, txt, b, e) <==> 0 <= b <= e <= |txt.col| && LanguageMatches(root, txt, X, b, e)
    decreases t, 0
  {
    if t.Subre? {
      var Y, Z :| X == Y + Z && Describes(t.left, Y, colors, root) && DescribesChain(t.right, Z, colors, root);
      DescribedIsComposed(t.left, Y, colors, root, txt);
      DescribedChain(t.right, Z, colors, root, txt);
      forall b, e ensures SomeAlternative(t, txt, b, e) <==> 0 <= b <= e <= |txt.col| && LanguageMatches(root, txt, X, b, e) {
        if 0 <= b <= e <= |txt.col| {
          SumMatches(root, txt, Y, Z, b, e);
        }
        assert SomeAlternative(t, txt, b, e) <==> Accepted(t.left, txt, b, e) || SomeAlternative(t.right, txt, b, e);
      }
    }
  }

  /** The compiled expression is ready for any text in its colours. */
  lemma CompiledIsReady(t: Subre, s: Cnfa, x: Frame, A: set<Arc>, colors: seq<int>, init: nat, final: nat, I: set<nat>, txt: Text)
    requires Framed(x, A, colors, init, final, I) && WellFormed(s) && SpeaksSearch(s, x, A, colors)
    requires t.Subre? && Describes(t, Lang(A, I, init, final), colors, t.cnfa) && TextFits(t.cnfa, colors, txt)
    requires SameSymbols(s, t.cnfa) && t.cnfa.bos == (x.bos0, x.bos1) && t.cnfa.eos == (x.eos0, x.eos1)
    ensures Ready(s, t, txt)
  {
    DescribedIsComposed(t, Lang(A, I, init, final), colors, t.cnfa, txt);
    SearchFitsRoot(t.cnfa, s, x, A, colors, init, final, I, txt);
  }
}

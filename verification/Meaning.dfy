/** What labels and words of labels say of a string: nothing here knows of colours for string ends. */
module Meaning {
  import opened Automaton
  import opened Surgery
  import opened CompactNfa
  import opened Simulation
  import opened Fragments
  import opened Reaching
  import opened Framing
  import opened NodeBuild

  /** Passing the label at position `p` of the string. '^' is the beginning of the string, and
      (with 0) the beginning if REG_NOTBOL says that it is no beginning of a line; so for '$'. */
  predicate Passes(t: Text, lab: Label, p: nat)
    requires p <= |t.col|
  {
    match lab.0
    case Plain => p < |t.col| && t.col[p] == lab.1
    case Empty => true
    case Begin => p == 0 && (if lab.1 == 0 then t.notbol else !t.notbol)
    case End => p == |t.col| && (if lab.1 == 0 then t.noteol else !t.noteol)
    case Behind => p > 0 && t.col[p - 1] == lab.1
    case Ahead => p < |t.col| && t.col[p] == lab.1
    case Lacon => t.holds(lab.1, p)
  }

  /** The word says that the string goes on from `p` to `q`. */
  predicate Says(t: Text, l: seq<Label>, p: nat, q: nat)
    decreases |l|
  {
    p <= |t.col| &&
    if l == [] then p == q
    else Passes(t, l[0], p) && Says(t, l[1..], if l[0].0 == Plain then p + 1 else p, q)
  }

  /** The four pseudocolours are different. */
  predicate Apart(c: Cnfa) {
    c.bos.0 != c.bos.1 && c.bos.0 != c.eos.0 && c.bos.0 != c.eos.1 && c.bos.1 != c.eos.0 && c.bos.1 != c.eos.1 && c.eos.0 != c.eos.1
  }

  /** The colour of a label is no pseudocolour. */
  predicate NoEndMark(c: Cnfa, lab: Label) {
    lab.0 == Plain || lab.0 == Behind || lab.0 == Ahead ==> lab.1 != c.bos.0 && lab.1 != c.bos.1 && lab.1 != c.eos.0 && lab.1 != c.eos.1
  }

  /** The symbols around a string are the pseudocolours of its ends, each where it is due. */
  lemma EndSymbols(c: Cnfa, t: Text, p: nat)
    requires Colored(c, t) && Apart(c) && p <= |t.col|
    ensures Prev(c, t, p) == c.bos.1 <==> p == 0 && !t.notbol
    ensures Prev(c, t, p) == c.bos.0 <==> p == 0 && t.notbol
    ensures Next(c, t, p) == c.eos.1 <==> p == |t.col| && !t.noteol
    ensures Next(c, t, p) == c.eos.0 <==> p == |t.col| && t.noteol
    ensures p > 0 ==> Prev(c, t, p) == t.col[p - 1]
    ensures p < |t.col| ==> Next(c, t, p) == t.col[p]
  {
  }

  /** Labels can be read exactly where they pass. */
  lemma ReadableIsPasses(c: Cnfa, t: Text, lab: Label, p: nat)
    requires Colored(c, t) && Apart(c) && NoEndMark(c, lab) && p <= |t.col|
    ensures Readable(c, t, lab, p) <==> Passes(t, lab, p)
  {
    EndSymbols(c, t, p);
  }

  lemma {:induction false} MatchIsSaying(c: Cnfa, t: Text, l: seq<Label>, p: nat, q: nat)
    requires Colored(c, t) && Apart(c) && forall lab :: lab in l ==> NoEndMark(c, lab)
    ensures LabelsMatch(c, t, l, p, q) <==> Says(t, l, p, q)
    decreases |l|
  {
    if l != [] && p <= |t.col| {
      ReadableIsPasses(c, t, l[0], p);
      MatchIsSaying(c, t, l[1..], p + LabelWidth(l[0]), q);
    }
  }

  lemma {:induction false} SaysBounds(t: Text, l: seq<Label>, p: nat, q: nat)
    requires Says(t, l, p, q)
    ensures p <= q <= |t.col|
    decreases |l|
  {
    if l != [] {
      SaysBounds(t, l[1..], if l[0].0 == Plain then p + 1 else p, q);
    }
  }

  // ----- languages

  /** Some word of `X` says that it goes on from `b` to `e`. */
  ghost predicate SaidAt(X: Language, t: Text, b: int, e: int) {
    0 <= b <= e <= |t.col| && exists l :: l in X && Says(t, l, b, e)
  }

  ghost predicate OrdinaryWords(c: Cnfa, X: Language) { forall l, lab :: l in X && lab in l ==> NoEndMark(c, lab) }

  lemma LanguageIsSaying(c: Cnfa, t: Text, X: Language, b: nat, e: nat)
    requires Colored(c, t) && Apart(c) && OrdinaryWords(c, X) && b <= e <= |t.col|
    ensures LanguageMatches(c, t, X, b, e) <==> SaidAt(X, t, b, e)
  {
    forall l | l in X ensures LabelsMatch(c, t, l, b, e) <==> Says(t, l, b, e) { MatchIsSaying(c, t, l, b, e); }
  }

  /** The labels of a fragment's words are those of its arcs. */
  lemma {:induction false} ThroughLabels(A: set<Arc>, I: set<nat>, u: nat, t: nat, l: seq<Label>, n: nat, lab: Label)
    requires Through(A, I, u, t, l, n) && lab in l
    ensures exists a :: a in A && (a.from == u || a.from in I) && lab == (a.kind, a.co)
    decreases n
  {
    var a := FirstArc(A, I, u, t, l, n);
    if lab !in LabelOf(a) {
      var rest := l[|LabelOf(a)|..];
      assert l == LabelOf(a) + rest;
      ThroughLabels(A, I, a.to, t, rest, n - 1, lab);
    }
  }

  lemma LangLabels(A: set<Arc>, I: set<nat>, lp: nat, rp: nat, l: seq<Label>, lab: Label)
    requires l in Lang(A, I, lp, rp) && lab in l
    ensures exists a :: a in Within(A, lp, I) && lab == (a.kind, a.co)
  {
    var n: nat :| Through(A, I, lp, rp, l, n);
    ThroughLabels(A, I, lp, rp, l, n, lab);
    var a :| a in A && (a.from == lp || a.from in I) && lab == (a.kind, a.co);
    assert a in Within(A, lp, I);
  }

  // ----- anchors

  /** A word that begins with '^' holds at the beginning of the string only, and there only if
      that is the beginning of a line. */
  lemma AnchoredAtBegin(t: Text, l: seq<Label>, b: nat, e: nat)
    requires l != [] && l[0] == (Begin, 1)
    ensures Says(t, l, b, e) <==> b == 0 && !t.notbol && Says(t, l[1..], 0, e)
  {
  }

  /** What comes after the first label holds from the beginning of the string to `e`. */
  predicate RestSays(t: Text, l: seq<Label>, e: nat) { l != [] && Says(t, l[1..], 0, e) }

  lemma SaidAtBegin(X: Language, t: Text, b: int, e: int)
    requires forall l :: l in X ==> l != [] && l[0] == (Begin, 1)
    ensures SaidAt(X, t, b, e) <==> b == 0 && !t.notbol && 0 <= e && exists l :: l in X && RestSays(t, l, e)
  {
    if SaidAt(X, t, b, e) {
      var l :| l in X && Says(t, l, b, e);
      AnchoredAtBegin(t, l, b, e);
      assert RestSays(t, l, e);
    }
    if b == 0 && !t.notbol && 0 <= e {
      if l :| l in X && RestSays(t, l, e) {
        AnchoredAtBegin(t, l, 0, e);
        SaysBounds(t, l[1..], 0, e);
      }
    }
  }

  lemma {:induction false} SaysAppend(t: Text, l: seq<Label>, k: seq<Label>, p: nat, q: nat)
    ensures Says(t, l + k, p, q) <==> exists m: nat :: Says(t, l, p, m) && Says(t, k, m, q)
    decreases |l|
  {
    if l == [] {
      assert l + k == k;
      if Says(t, k, p, q) { assert Says(t, l, p, p); }
    } else if p <= |t.col| {
      assert (l + k)[1..] == l[1..] + k;
      var p' := if l[0].0 == Plain then p + 1 else p;
      SaysAppend(t, l[1..], k, p', q);
      assert forall m: nat :: Says(t, l, p, m) <==> Passes(t, l[0], p) && Says(t, l[1..], p', m);
    }
  }

  /** A word that ends with '$' holds up to the end of the string only, and only if that is the
      end of a line. */
  lemma AnchoredAtEnd(t: Text, l: seq<Label>, b: nat, e: nat)
    ensures Says(t, l + [(End, 1)], b, e) <==> e == |t.col| && !t.noteol && Says(t, l, b, e)
  {
    SaysAppend(t, l, [(End, 1)], b, e);
    var dollar: seq<Label> := [(End, 1)];
    assert dollar[1..] == [];
    assert forall m: nat :: Says(t, dollar, m, e) <==> m == e == |t.col| && !t.noteol;
  }
}

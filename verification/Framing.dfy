/** A fragment in its frame of initial and final arcs, and the strings its label words match. */
module Framing {
  import opened Automaton
  import opened Surgery
  import opened Fragments

  // ----- reading label words

  /** Whether a label inside a fragment may be passed after `i` symbols of `w`. */
  ghost predicate LabelCan(x: Frame, lab: Label, w: seq<int>, i: int)
    requires 0 <= i <= |w|
  {
    match lab.0
    case Plain => i < |w| && w[i] == lab.1
    case Empty => true
    case Begin => i > 0 && w[i-1] == x.Bos(lab.1)
    case End => i < |w| && w[i] == x.Eos(lab.1)
    case Behind => i > 0 && w[i-1] == lab.1
    case Ahead => i < |w| && w[i] == lab.1
    case Lacon => x.holds(lab.1, x.off + i)
  }

  function LabelWidth(lab: Label): nat { if lab.0 == Plain then 1 else 0 }

  /** The label word `l` takes the reading of `w` from index `i` to index `j`. */
  ghost predicate Spells(x: Frame, l: seq<Label>, w: seq<int>, i: int, j: int)
    requires 0 <= i <= |w|
    decreases |l|
  {
    if l == [] then i == j else LabelCan(x, l[0], w, i) && Spells(x, l[1..], w, i + LabelWidth(l[0]), j)
  }

  /** The states of the automaton have nothing to do with it. */
  lemma {:induction false} SpellsAlike(x: Frame, y: Frame, l: seq<Label>, w: seq<int>, i: int, j: int)
    requires 0 <= i <= |w| && Like(x.(pre := y.pre, post := y.post), y) && y.holds == x.holds && y.off == x.off
    ensures Spells(x, l, w, i, j) <==> Spells(y, l, w, i, j)
    decreases |l|
  {
    if l != [] {
      assert LabelCan(x, l[0], w, i) <==> LabelCan(y, l[0], w, i);
      if LabelCan(x, l[0], w, i) {
        SpellsAlike(x, y, l[1..], w, i + LabelWidth(l[0]), j);
      }
    }
  }

  // ----- the frame

  predicate Opens(x: Frame, colors: seq<int>, co: int) { co in colors || co == x.bos0 || co == x.bos1 }

  predicate Closes(x: Frame, colors: seq<int>, co: int) { co in colors || co == x.eos0 || co == x.eos1 }

  /** The arcs from pre to init, and from final to post: all colours, and both anchors. */
  function FrameArcs(colors: seq<int>, kind: Kind, from: nat, to: nat): set<Arc> {
    (set co | co in colors :: Arc(Plain, co, from, to)) + {Arc(kind, 0, from, to), Arc(kind, 1, from, to)}
  }

  /** Nothing enters `init` but the frame arcs out of pre, nothing leaves `final` but
      those into post, and between them hangs a fragment with the inner states `I`. */
  ghost predicate Framed(x: Frame, A: set<Arc>, colors: seq<int>, init: nat, final: nat, I: set<nat>) {
    && x.pre != x.post && init != x.pre && init != x.post && final != x.pre && final != x.post && x.pre !in I && x.post !in I
    && Fragment(A, init, final, I)
    && FrameArcs(colors, Begin, x.pre, init) <= A && FrameArcs(colors, End, final, x.post) <= A
    && (forall a :: a in A && a.from == x.pre ==> a in FrameArcs(colors, Begin, x.pre, init))
    && (forall a :: a in A && a.from == final ==> a in FrameArcs(colors, End, final, x.post))
    && (forall a :: a in A && a.to == x.post ==> a.from == final)
    && (forall a :: a in A ==> a.to != x.pre && a.from != x.post)
  }

  /** From inside the fragment to post, one symbol is needed at the end. */
  lemma {:induction false} OneSymbolLeft(x: Frame, A: set<Arc>, colors: seq<int>, init: nat, final: nat, I: set<nat>, w: seq<int>, u: nat, i: int, n: nat)
    requires Framed(x, A, colors, init, final, I) && (u == init || u == final || u in I) && 0 <= i <= |w| && Ends(x, A, w, u, i, n)
    ensures i < |w| && n > 0
    decreases n
  {
    var a := PathFirst(x, A, w, u, i, x.post, |w|, n);
    if u != final {
      OneSymbolLeft(x, A, colors, init, final, I, w, a.to, i + Width(x, a), n - 1);
    }
  }

  lemma FinalStep(x: Frame, A: set<Arc>, colors: seq<int>, init: nat, final: nat, I: set<nat>, w: seq<int>, i: int, n: nat)
    requires Framed(x, A, colors, init, final, I) && 0 <= i <= |w| && Ends(x, A, w, final, i, n)
    ensures i == |w| - 1 && Closes(x, colors, w[i])
  {
    OneSymbolLeft(x, A, colors, init, final, I, w, final, i, n);
    var a := PathFirst(x, A, w, final, i, x.post, |w|, n);
    if n > 1 {
      var b := PathFirst(x, A, w, x.post, i + Width(x, a), x.post, |w|, n - 1);
      assert false;
    }
  }

  /** An accepting path inside the fragment spells a label word that reads the rest. */
  lemma {:induction false} PathSpells(x: Frame, A: set<Arc>, colors: seq<int>, init: nat, final: nat, I: set<nat>, w: seq<int>, u: nat, i: int, n: nat)
    returns (l: seq<Label>, m: nat)
    requires Framed(x, A, colors, init, final, I) && (u == init || u in I) && 0 <= i <= |w| && Ends(x, A, w, u, i, n)
    ensures w != [] && Through(A, I, u, final, l, m) && Spells(x, l, w, i, |w| - 1) && Closes(x, colors, w[|w| - 1])
    decreases n
  {
    OneSymbolLeft(x, A, colors, init, final, I, w, u, i, n);
    var a := PathFirst(x, A, w, u, i, x.post, |w|, n);
    var k := i + Width(x, a);
    if a.to == final {
      FinalStep(x, A, colors, init, final, I, w, k, n - 1);
      l, m := LabelOf(a), 1;
      OneArc(A, I, a);
      assert Spells(x, [], w, k, |w| - 1);
    } else {
      var l';
      l', m := PathSpells(x, A, colors, init, final, I, w, a.to, k, n - 1);
      MoreArcs(A, I, a, final, l', m);
      l, m := LabelOf(a) + l', m + 1;
    }
    SpellsOneMore(x, a, if a.to == final then [] else l[|LabelOf(a)|..], w, i, |w| - 1);
  }

  lemma SpellsOneMore(x: Frame, a: Arc, l: seq<Label>, w: seq<int>, i: int, j: int)
    requires a.from != x.pre && a.to != x.post && 0 <= i <= |w| && Can(x, a, w, i) && Spells(x, l, w, i + Width(x, a), j)
    ensures Spells(x, LabelOf(a) + l, w, i, j)
  {
    if a.kind == Empty {
      assert LabelOf(a) + l == l;
    } else {
      assert (LabelOf(a) + l)[1..] == l;
    }
  }

  /** A label word that reads the rest is a path. */
  lemma {:induction false} SpellsPath(x: Frame, A: set<Arc>, colors: seq<int>, init: nat, final: nat, I: set<nat>, w: seq<int>, u: nat, i: int, l: seq<Label>, m: nat)
    requires Framed(x, A, colors, init, final, I) && (u == init || u in I) && 0 <= i <= |w| && w != []
    requires Through(A, I, u, final, l, m) && Spells(x, l, w, i, |w| - 1)
    ensures Path(x, A, w, u, i, final, |w| - 1, m)
    decreases m
  {
    var a := FirstArc(A, I, u, final, l, m);
    var k := i + Width(x, a);
    if a.kind == Empty { assert l[0..] == l; }
    assert Can(x, a, w, i) && Spells(x, l[|LabelOf(a)|..], w, k, |w| - 1);
    if m > 1 {
      SpellsPath(x, A, colors, init, final, I, w, a.to, k, l[|LabelOf(a)|..], m - 1);
    } else {
      assert l[|LabelOf(a)|..] == [];
    }
    PathCons(x, A, w, a, i, final, |w| - 1, m - 1);
  }

  ghost predicate SomeSpells(x: Frame, X: Language, w: seq<int>)
    requires |w| >= 2
  {
    exists l :: l in X && Spells(x, l, w, 1, |w| - 1)
  }

  /** A symbol, what a word of `X` reads, and a symbol. */
  ghost predicate InFrame(x: Frame, colors: seq<int>, X: Language, w: seq<int>) {
    |w| >= 2 && Opens(x, colors, w[0]) && Closes(x, colors, w[|w| - 1]) && SomeSpells(x, X, w)
  }

  lemma FramedSound(x: Frame, A: set<Arc>, colors: seq<int>, init: nat, final: nat, I: set<nat>, w: seq<int>)
    requires Framed(x, A, colors, init, final, I) && Accepts(x, A, w)
    ensures InFrame(x, colors, Lang(A, I, init, final), w)
  {
    var n: nat :| Ends(x, A, w, x.pre, 0, n);
    var a := PathFirst(x, A, w, x.pre, 0, x.post, |w|, n);
    assert a in FrameArcs(colors, Begin, x.pre, init);
    OneSymbolLeft(x, A, colors, init, final, I, w, init, 1, n - 1);
    var l, m := PathSpells(x, A, colors, init, final, I, w, init, 1, n - 1);
    InLang(A, I, init, final, l, m);
  }

  lemma FramedComplete(x: Frame, A: set<Arc>, colors: seq<int>, init: nat, final: nat, I: set<nat>, w: seq<int>)
    requires Framed(x, A, colors, init, final, I) && InFrame(x, colors, Lang(A, I, init, final), w)
    ensures Accepts(x, A, w)
  {
    var l :| l in Lang(A, I, init, final) && Spells(x, l, w, 1, |w| - 1);
    var m: nat :| Through(A, I, init, final, l, m);
    SpellsPath(x, A, colors, init, final, I, w, init, 1, l, m);
    var a := if w[0] in colors then Arc(Plain, w[0], x.pre, init) else Arc(Begin, if w[0] == x.bos0 then 0 else 1, x.pre, init);
    var z := w[|w| - 1];
    var b := if z in colors then Arc(Plain, z, final, x.post) else Arc(End, if z == x.eos0 then 0 else 1, final, x.post);
    assert a in A && b in A;
    EndByFinal(x, A, w, b, init, 1, m);
    PathCons(x, A, w, a, 0, x.post, |w|, m + 1);
    assert Ends(x, A, w, x.pre, 0, m + 2);
  }

  lemma {:induction false} EndByFinal(x: Frame, A: set<Arc>, w: seq<int>, b: Arc, u: nat, i: int, m: nat)
    requires w != [] && 0 <= i <= |w| && b in A && b.to == x.post && Width(x, b) == 1 && Can(x, b, w, |w| - 1)
    requires Path(x, A, w, u, i, b.from, |w| - 1, m)
    ensures Ends(x, A, w, u, i, m + 1)
    decreases m
  {
    if m == 0 {
      PathCons(x, A, w, b, i, x.post, |w|, 0);
    } else {
      var a := PathFirst(x, A, w, u, i, b.from, |w| - 1, m);
      EndByFinal(x, A, w, b, a.to, i + Width(x, a), m - 1);
      PathCons(x, A, w, a, i, x.post, |w|, m);
    }
  }

  /** What a framed fragment accepts: a symbol, what one of its label words reads, a symbol. */
  lemma FramedAccepts(x: Frame, A: set<Arc>, colors: seq<int>, init: nat, final: nat, I: set<nat>, w: seq<int>)
    requires Framed(x, A, colors, init, final, I)
    ensures Accepts(x, A, w) <==> InFrame(x, colors, Lang(A, I, init, final), w)
  {
    if Accepts(x, A, w) {
      FramedSound(x, A, colors, init, final, I, w);
    }
    if InFrame(x, colors, Lang(A, I, init, final), w) {
      FramedComplete(x, A, colors, init, final, I, w);
    }
  }

  lemma FramedAlike(x: Frame, y: Frame, A: set<Arc>, colors: seq<int>, init: nat, final: nat, I: set<nat>)
    requires Framed(x, A, colors, init, final, I) && Like(x, y)
    ensures Framed(y, A, colors, init, final, I)
  {
  }

  lemma InFrameAlike(x: Frame, y: Frame, colors: seq<int>, X: Language, w: seq<int>)
    requires Like(x.(pre := y.pre, post := y.post), y) && y.holds == x.holds && y.off == x.off
    ensures InFrame(x, colors, X, w) <==> InFrame(y, colors, X, w)
  {
    if |w| >= 2 {
      var j := |w| - 1;
      forall l ensures Spells(x, l, w, 1, j) <==> Spells(y, l, w, 1, j) { SpellsAlike(x, y, l, w, 1, j); }
    }
  }
}

/** Fragments of an NFA, the label words that lead through them, and repetition. */
module Fragments {
  import opened Automaton
  import opened Surgery

  type Label = (Kind, int)
  type Language = iset<seq<Label>>

  /** What an arc contributes to a label word; EMPTY contributes nothing. */
  function LabelOf(a: Arc): seq<Label> { if a.kind == Empty then [] else [(a.kind, a.co)] }

  // ----- languages

  ghost function Cat(X: Language, Y: Language): Language {
    iset l, i | 0 <= i <= |l| && l[..i] in X && l[i..] in Y :: l
  }

  ghost function Power(X: Language, k: nat): Language { if k == 0 then JustEmpty() else Cat(X, Power(X, k - 1)) }

  const DUPMAX := 255
  const INFINITY := DUPMAX + 1

  /** From `m` to `n` words of `X` in a row. */
  ghost function Reps(X: Language, m: int, n: int): Language {
    iset l, k: nat | m <= k && (n == INFINITY || k <= n) && l in Power(X, k) :: l
  }

  lemma InCat(X: Language, Y: Language, p: seq<Label>, q: seq<Label>)
    requires p in X && q in Y
    ensures p + q in Cat(X, Y)
  {
    var l, i := p + q, |p|;
    assert l[..i] == p && l[i..] == q;
  }

  lemma CatAssociates(X: Language, Y: Language, Z: Language)
    ensures Cat(Cat(X, Y), Z) == Cat(X, Cat(Y, Z))
  {
    forall l | l in Cat(Cat(X, Y), Z) ensures l in Cat(X, Cat(Y, Z)) {
      var j :| 0 <= j <= |l| && l[..j] in Cat(X, Y) && l[j..] in Z;
      var i :| 0 <= i <= |l[..j]| && l[..j][..i] in X && l[..j][i..] in Y;
      InCat(Y, Z, l[..j][i..], l[j..]);
      assert l[..j][..i] == l[..i] && l[..j][i..] + l[j..] == l[i..];
    }
    forall l | l in Cat(X, Cat(Y, Z)) ensures l in Cat(Cat(X, Y), Z) {
      var i :| 0 <= i <= |l| && l[..i] in X && l[i..] in Cat(Y, Z);
      var j :| 0 <= j <= |l[i..]| && l[i..][..j] in Y && l[i..][j..] in Z;
      InCat(X, Y, l[..i], l[i..][..j]);
      assert l[..i] + l[i..][..j] == l[..i + j] && l[i..][j..] == l[i + j..];
    }
  }

  ghost function JustEmpty(): Language { iset{[]} }

  lemma Same(X: Language, Y: Language)
    requires forall l: seq<Label> :: l in X <==> l in Y
    ensures X == Y
  {
  }

  lemma EmptyAfter(X: Language, l: seq<Label>)
    ensures l in Cat(X, JustEmpty()) <==> l in X
  {
    if l in X {
      InCat(X, JustEmpty(), l, []);
      assert l + [] == l;
    }
    if l in Cat(X, JustEmpty()) {
      var i :| 0 <= i <= |l| && l[..i] in X && l[i..] in JustEmpty();
      assert l == l[..i] + l[i..] == l[..i];
    }
  }

  lemma EmptyBefore(X: Language, l: seq<Label>)
    ensures l in Cat(JustEmpty(), X) <==> l in X
  {
    if l in X {
      InCat(JustEmpty(), X, [], l);
      assert [] + l == l;
    }
    if l in Cat(JustEmpty(), X) {
      var i :| 0 <= i <= |l| && l[..i] in JustEmpty() && l[i..] in X;
      assert l == l[..i] + l[i..] == l[i..];
    }
  }

  lemma CatEmpty(X: Language)
    ensures Cat(X, JustEmpty()) == X
  {
    forall l: seq<Label> ensures l in Cat(X, JustEmpty()) <==> l in X { EmptyAfter(X, l); }
    Same(Cat(X, JustEmpty()), X);
  }

  lemma EmptyCat(X: Language)
    ensures Cat(JustEmpty(), X) == X
  {
    forall l: seq<Label> ensures l in Cat(JustEmpty(), X) <==> l in X { EmptyBefore(X, l); }
    Same(Cat(JustEmpty(), X), X);
  }

  /** One more word at the end is as good as one more at the beginning. */
  lemma {:induction false} PowerLast(X: Language, k: nat)
    ensures Power(X, k + 1) == Cat(Power(X, k), X)
    decreases k
  {
    if k == 0 {
      CatEmpty(X);
      EmptyCat(X);
    } else {
      PowerLast(X, k - 1);
      CatAssociates(X, Power(X, k - 1), X);
    }
  }

  /** One more repetition. */
  lemma RepsMore(X: Language, m: nat, n: nat)
    requires 0 < n <= INFINITY && m < INFINITY
    ensures Cat(Reps(X, m, if n == INFINITY then n else n - 1), X) == Reps(X, m + 1, n)
  {
    var R := Reps(X, m, if n == INFINITY then n else n - 1);
    forall l | l in Cat(R, X) ensures l in Reps(X, m + 1, n) {
      var i :| 0 <= i <= |l| && l[..i] in R && l[i..] in X;
      var k: nat :| m <= k && (n == INFINITY || k <= n - 1) && l[..i] in Power(X, k);
      PowerLast(X, k);
      assert l in Power(X, k + 1);
    }
    forall l | l in Reps(X, m + 1, n) ensures l in Cat(R, X) {
      var k: nat :| m + 1 <= k && (n == INFINITY || k <= n) && l in Power(X, k);
      PowerLast(X, k - 1);
      var i :| 0 <= i <= |l| && l[..i] in Power(X, k - 1) && l[i..] in X;
      assert l[..i] in R;
    }
  }

  /** Allowing none as well. */
  lemma RepsNone(X: Language, n: nat)
    ensures Reps(X, 0, n) == Reps(X, 1, n) + JustEmpty()
  {
    forall l ensures l in Reps(X, 0, n) <==> l in Reps(X, 1, n) || l == [] {
      if l in Reps(X, 0, n) && l != [] {
        var k: nat :| (n == INFINITY || k <= n) && l in Power(X, k);
        assert k >= 1;
      }
      if l == [] { assert l in Power(X, 0); }
    }
  }

  lemma RepsSmall(X: Language)
    ensures Reps(X, 0, 0) == JustEmpty() && Reps(X, 1, 1) == X
  {
    CatEmpty(X);
    assert Power(X, 1) == Cat(X, Power(X, 0));
    forall l ensures l in Reps(X, 0, 0) <==> l == [] {
      if l == [] { assert l in Power(X, 0); }
    }
    forall l ensures l in Reps(X, 1, 1) <==> l in X {
      if l in X { assert l in Power(X, 1); }
    }
  }

  // ----- fragments

  /** The states `I` lie inside a fragment from `lp` to `rp`: nothing else leaves `lp`
      or enters `rp`, and what enters or leaves `I` is inside as well. */
  ghost predicate Fragment(A: set<Arc>, lp: nat, rp: nat, I: set<nat>) {
    && lp != rp && lp !in I && rp !in I
    && forall a :: a in A ==> (a.from == lp || a.from in I <==> a.to == rp || a.to in I)
  }

  /** The arcs that do not belong to the fragment. */
  function Outside(A: set<Arc>, lp: nat, I: set<nat>): set<Arc> { set a | a in A && a.from != lp && a.from !in I }

  /** `n` arcs lead from `u` to `t` by states of `I`, spelling `l`. */
  ghost predicate Through(A: set<Arc>, I: set<nat>, u: nat, t: nat, l: seq<Label>, n: nat)
    decreases n
  {
    n > 0 && exists a :: a in A && a.from == u && Onward(A, I, a, t, l, n)
  }

  /** ... the first of them being `a`. */
  ghost predicate Onward(A: set<Arc>, I: set<nat>, a: Arc, t: nat, l: seq<Label>, n: nat)
    requires n > 0
    decreases n, 0
  {
    if n == 1 then a.to == t && l == LabelOf(a)
    else a.to in I && LabelOf(a) <= l && Through(A, I, a.to, t, l[|LabelOf(a)|..], n - 1)
  }

  /** The label words of the fragment from `lp` to `rp`. */
  ghost function Lang(A: set<Arc>, I: set<nat>, lp: nat, rp: nat): Language {
    iset l, n: nat | Through(A, I, lp, rp, l, n) :: l
  }

  lemma InLang(A: set<Arc>, I: set<nat>, lp: nat, rp: nat, l: seq<Label>, n: nat)
    requires Through(A, I, lp, rp, l, n)
    ensures l in Lang(A, I, lp, rp)
  {
  }

  lemma FirstArc(A: set<Arc>, I: set<nat>, u: nat, t: nat, l: seq<Label>, n: nat) returns (a: Arc)
    requires Through(A, I, u, t, l, n)
    ensures a in A && a.from == u && Onward(A, I, a, t, l, n)
  {
    a :| a in A && a.from == u && Onward(A, I, a, t, l, n);
  }

  lemma OneArc(A: set<Arc>, I: set<nat>, a: Arc)
    requires a in A
    ensures Through(A, I, a.from, a.to, LabelOf(a), 1)
  {
    assert Onward(A, I, a, a.to, LabelOf(a), 1);
  }

  lemma MoreArcs(A: set<Arc>, I: set<nat>, a: Arc, t: nat, l: seq<Label>, n: nat)
    requires a in A && a.to in I && Through(A, I, a.to, t, l, n)
    ensures Through(A, I, a.from, t, LabelOf(a) + l, n + 1)
  {
    assert (LabelOf(a) + l)[|LabelOf(a)|..] == l;
    assert Onward(A, I, a, t, LabelOf(a) + l, n + 1);
  }

  /** One arc more in front of a path to `t` that spells a beginning of what is left. */
  lemma LongerStart(A: set<Arc>, I: set<nat>, a: Arc, t: nat, l: seq<Label>, i: nat, m: nat) returns (i': nat, m': nat)
    requires a in A && LabelOf(a) <= l && i + |LabelOf(a)| <= |l|
    requires if a.to == t then i == 0 else a.to in I && Through(A, I, a.to, t, l[|LabelOf(a)|..][..i], m)
    ensures i' == i + |LabelOf(a)| && Through(A, I, a.from, t, l[..i'], m') && l[i'..] == l[|LabelOf(a)|..][i..]
  {
    var rest := l[|LabelOf(a)|..];
    i' := i + |LabelOf(a)|;
    assert l[..i'] == LabelOf(a) + rest[..i];
    if a.to == t {
      OneArc(A, I, a);
      assert l[..i'] == LabelOf(a);
      m' := 1;
    } else {
      MoreArcs(A, I, a, t, rest[..i], m);
      m' := m + 1;
    }
  }

  /** Only the arcs out of `u` and the states of `I` matter. */
  lemma {:induction false} ThroughSame(A: set<Arc>, B: set<Arc>, I: set<nat>, u: nat, t: nat, l: seq<Label>, n: nat)
    requires forall a :: a in A && (a.from == u || a.from in I) ==> a in B
    requires Through(A, I, u, t, l, n)
    ensures Through(B, I, u, t, l, n)
    decreases n
  {
    var a := FirstArc(A, I, u, t, l, n);
    if n > 1 {
      ThroughSame(A, B, I, a.to, t, l[|LabelOf(a)|..], n - 1);
    }
    assert Onward(B, I, a, t, l, n);
  }

  lemma LangSame(A: set<Arc>, B: set<Arc>, I: set<nat>, lp: nat, rp: nat)
    requires forall a: Arc :: a.from == lp || a.from in I ==> (a in A <==> a in B)
    ensures Lang(A, I, lp, rp) == Lang(B, I, lp, rp)
  {
    forall l ensures l in Lang(A, I, lp, rp) <==> l in Lang(B, I, lp, rp) {
      if n: nat :| Through(A, I, lp, rp, l, n) { ThroughSame(A, B, I, lp, rp, l, n); }
      if n: nat :| Through(B, I, lp, rp, l, n) { ThroughSame(B, A, I, lp, rp, l, n); }
    }
  }

  // ----- a fragment moved or copied elsewhere

  function Alias(no: map<nat, nat>, u: nat, old_: nat, new_: nat): nat {
    if u == old_ then new_ else if u in no then no[u] else u
  }

  /** Where an arc of the fragment from `lp` to `rp` goes when the fragment is strung
      between `s` and `t` and its other states become what `no` says. */
  function Strung(a: Arc, no: map<nat, nat>, lp: nat, rp: nat, s: nat, t: nat): Arc {
    a.(from := Alias(no, a.from, lp, s), to := Alias(no, a.to, rp, t))
  }

  /** `B` holds a copy, strung between `s` and `t` by the states `J`, of the part of the
      fragment that leaves the states of `R`. */
  ghost predicate CopyOf(A: set<Arc>, I: set<nat>, lp: nat, rp: nat, R: set<nat>, no: map<nat, nat>, B: set<Arc>, J: set<nat>, s: nat, t: nat) {
    && lp in R && lp !in I && rp !in I && R <= I + {lp} && no.Keys == R - {lp} && s !in J && t !in J
    && (forall a :: a in A && a.from in R ==> a.to == rp || (a.to in R && a.to != lp))
    && (forall u :: u in no ==> no[u] in J)
    && (forall u, v :: u in no && v in no && no[u] == no[v] ==> u == v)
    && (forall a :: a in A && a.from in R ==> Strung(a, no, lp, rp, s, t) in B)
    && (forall b :: b in B && (b.from == s || b.from in J) && (b.to == t || b.to in J) ==>
          exists a :: a in A && a.from in R && b == Strung(a, no, lp, rp, s, t))
  }

  lemma {:induction false} CopyForward(A: set<Arc>, I: set<nat>, lp: nat, rp: nat, R: set<nat>, no: map<nat, nat>, B: set<Arc>, J: set<nat>, s: nat, t: nat,
                                       u: nat, l: seq<Label>, n: nat)
    requires CopyOf(A, I, lp, rp, R, no, B, J, s, t) && u in R
    requires Through(A, I, u, rp, l, n)
    ensures Through(B, J, Alias(no, u, lp, s), t, l, n)
    decreases n
  {
    var a := FirstArc(A, I, u, rp, l, n);
    var b := Strung(a, no, lp, rp, s, t);
    if n > 1 {
      CopyForward(A, I, lp, rp, R, no, B, J, s, t, a.to, l[|LabelOf(a)|..], n - 1);
    }
    assert Onward(B, J, b, t, l, n);
  }

  /** An arc of the copy is the copy of an arc out of the state that its source stands for. */
  lemma ArcCopied(A: set<Arc>, I: set<nat>, lp: nat, rp: nat, R: set<nat>, no: map<nat, nat>, B: set<Arc>, J: set<nat>, s: nat, t: nat,
                  u: nat, b: Arc) returns (a: Arc)
    requires CopyOf(A, I, lp, rp, R, no, B, J, s, t) && u in R && b in B && b.from == Alias(no, u, lp, s) && (b.to == t || b.to in J)
    ensures a in A && a.from == u && LabelOf(a) == LabelOf(b)
    ensures if b.to == t then a.to == rp else a.to in R && a.to in I && Alias(no, a.to, lp, s) == b.to
  {
    assert b.from == s || b.from in J;
    a :| a in A && a.from in R && b == Strung(a, no, lp, rp, s, t);
    assert a.from == u by {
      assert a.from != lp ==> no[a.from] == b.from && a.from in no;
      assert u != lp ==> no[u] == b.from && u in no;
    }
    assert a.to == rp || a.to in no;
  }

  lemma {:induction false} CopyBackward(A: set<Arc>, I: set<nat>, lp: nat, rp: nat, R: set<nat>, no: map<nat, nat>, B: set<Arc>, J: set<nat>, s: nat, t: nat,
                                        u: nat, l: seq<Label>, n: nat)
    requires CopyOf(A, I, lp, rp, R, no, B, J, s, t) && u in R
    requires Through(B, J, Alias(no, u, lp, s), t, l, n)
    ensures Through(A, I, u, rp, l, n)
    decreases n
  {
    var b := FirstArc(B, J, Alias(no, u, lp, s), t, l, n);
    var a := ArcCopied(A, I, lp, rp, R, no, B, J, s, t, u, b);
    if n > 1 {
      CopyBackward(A, I, lp, rp, R, no, B, J, s, t, a.to, l[|LabelOf(a)|..], n - 1);
    }
    assert Onward(A, I, a, rp, l, n);
  }

  /** The copy has the words of the original. */
  lemma CopySpeaksAlike(A: set<Arc>, I: set<nat>, lp: nat, rp: nat, R: set<nat>, no: map<nat, nat>, B: set<Arc>, J: set<nat>, s: nat, t: nat)
    requires CopyOf(A, I, lp, rp, R, no, B, J, s, t)
    ensures Lang(B, J, s, t) == Lang(A, I, lp, rp)
  {
    forall l ensures l in Lang(B, J, s, t) <==> l in Lang(A, I, lp, rp) {
      if n: nat :| Through(A, I, lp, rp, l, n) { CopyForward(A, I, lp, rp, R, no, B, J, s, t, lp, l, n); }
      if n: nat :| Through(B, J, s, t, l, n) { CopyBackward(A, I, lp, rp, R, no, B, J, s, t, lp, l, n); }
    }
  }

  // ----- one fragment after another

  lemma {:induction false} ThroughAppend(A: set<Arc>, I1: set<nat>, I2: set<nat>, I: set<nat>, u: nat, mid: nat, t: nat,
                                         p: seq<Label>, q: seq<Label>, m: nat, n: nat)
    requires I1 <= I && I2 <= I && mid in I
    requires Through(A, I1, u, mid, p, m) && Through(A, I2, mid, t, q, n)
    ensures Through(A, I, u, t, p + q, m + n)
    decreases m + n
  {
    var a := FirstArc(A, I1, u, mid, p, m);
    if m > 1 {
      var p' := p[|LabelOf(a)|..];
      ThroughAppend(A, I1, I2, I, a.to, mid, t, p', q, m - 1, n);
      MoreArcs(A, I, a, t, p' + q, m - 1 + n);
      assert LabelOf(a) + (p' + q) == p + q;
    } else {
      ThroughGrow(A, I2, I, mid, t, q, n);
      MoreArcs(A, I, a, t, q, n);
    }
  }

  lemma {:induction false} ThroughGrow(A: set<Arc>, I: set<nat>, J: set<nat>, u: nat, t: nat, l: seq<Label>, n: nat)
    requires I <= J && Through(A, I, u, t, l, n)
    ensures Through(A, J, u, t, l, n)
    decreases n
  {
    var a := FirstArc(A, I, u, t, l, n);
    if n > 1 {
      ThroughGrow(A, I, J, a.to, t, l[|LabelOf(a)|..], n - 1);
    }
    assert Onward(A, J, a, t, l, n);
  }

  /** From inside a fragment whose states are all of `J` that can be reached, paths stay inside. */
  lemma {:induction false} ThroughShrink(A: set<Arc>, I: set<nat>, J: set<nat>, lp: nat, u: nat, t: nat, l: seq<Label>, n: nat)
    requires Fragment(A, lp, t, I) && (u == lp || u in I) && t !in J && Through(A, J, u, t, l, n)
    ensures Through(A, I, u, t, l, n)
    decreases n
  {
    var a := FirstArc(A, J, u, t, l, n);
    if n > 1 {
      ThroughShrink(A, I, J, lp, a.to, t, l[|LabelOf(a)|..], n - 1);
    }
    assert Onward(A, I, a, t, l, n);
  }

  /** A path through two fragments in a row changes over at `mid`. */
  lemma {:induction false} ChangeOver(A: set<Arc>, I1: set<nat>, I2: set<nat>, lp: nat, mid: nat, rp: nat, u: nat, l: seq<Label>, n: nat)
    returns (i: nat, m: nat, k: nat)
    requires Fragment(A, lp, mid, I1) && Fragment(A, mid, rp, I2) && rp != lp && rp !in I1 && (u == lp || u in I1)
    requires Through(A, I1 + {mid} + I2, u, rp, l, n)
    ensures i <= |l| && Through(A, I1, u, mid, l[..i], m) && Through(A, I2, mid, rp, l[i..], k)
    decreases n
  {
    var I := I1 + {mid} + I2;
    var a := FirstArc(A, I, u, rp, l, n);
    assert a.to != rp;
    var rest := l[|LabelOf(a)|..];
    if a.to == mid {
      i, m, k := 0, 0, n - 1;
      ThroughShrink(A, I2, I, mid, mid, rp, rest, n - 1);
      assert rest[0..] == rest;
    } else {
      i, m, k := ChangeOver(A, I1, I2, lp, mid, rp, a.to, rest, n - 1);
    }
    i, m := LongerStart(A, I1, a, mid, l, i, m);
  }

  /** Two fragments in a row are one fragment, whose words are the concatenations. */
  lemma InARow(A: set<Arc>, I1: set<nat>, I2: set<nat>, lp: nat, mid: nat, rp: nat)
    requires Fragment(A, lp, mid, I1) && Fragment(A, mid, rp, I2) && I1 !! I2 && lp !in I2 && rp != lp && rp !in I1
    ensures Fragment(A, lp, rp, I1 + {mid} + I2)
    ensures Lang(A, I1 + {mid} + I2, lp, rp) == Cat(Lang(A, I1, lp, mid), Lang(A, I2, mid, rp))
  {
    var I, X, Y := I1 + {mid} + I2, Lang(A, I1, lp, mid), Lang(A, I2, mid, rp);
    forall l ensures l in Lang(A, I, lp, rp) <==> l in Cat(X, Y) {
      if n: nat :| Through(A, I, lp, rp, l, n) {
        var i, m, k := ChangeOver(A, I1, I2, lp, mid, rp, lp, l, n);
        InLang(A, I1, lp, mid, l[..i], m);
        InLang(A, I2, mid, rp, l[i..], k);
      }
      if i :| 0 <= i <= |l| && l[..i] in X && l[i..] in Y {
        var m: nat :| Through(A, I1, lp, mid, l[..i], m);
        var k: nat :| Through(A, I2, mid, rp, l[i..], k);
        ThroughAppend(A, I1, I2, I, lp, mid, rp, l[..i], l[i..], m, k);
        assert l[..i] + l[i..] == l;
      }
    }
  }

  // ----- an EMPTY arc around a fragment

  function EmptyArc(from: nat, to: nat): Arc { Arc(Empty, 0, from, to) }

  lemma Bypass(A: set<Arc>, I: set<nat>, lp: nat, rp: nat)
    requires Fragment(A, lp, rp, I)
    ensures Fragment(A + {EmptyArc(lp, rp)}, lp, rp, I)
    ensures Lang(A + {EmptyArc(lp, rp)}, I, lp, rp) == Lang(A, I, lp, rp) + JustEmpty()
  {
    var e, B := EmptyArc(lp, rp), A + {EmptyArc(lp, rp)};
    forall l ensures l in Lang(B, I, lp, rp) <==> l in Lang(A, I, lp, rp) || l == [] {
      if l == [] {
        OneArc(B, I, e);
      }
      if n: nat :| Through(A, I, lp, rp, l, n) { ThroughSame(A, B, I, lp, rp, l, n); }
      if n: nat :| Through(B, I, lp, rp, l, n) {
        var a := FirstArc(B, I, lp, rp, l, n);
        if a != e {
          if n > 1 { ThroughSame(B, A, I, a.to, rp, l[|LabelOf(a)|..], n - 1); }
          assert Onward(A, I, a, rp, l, n);
          InLang(A, I, lp, rp, l, n);
        }
      }
    }
  }

  lemma RoundMore(X: Language, l: seq<Label>, i: nat, k: nat)
    requires i <= |l| && l[..i] in X && l[i..] in Power(X, k)
    ensures l in Power(X, k + 1)
  {
    InCat(X, Power(X, k), l[..i], l[i..]);
    assert l[..i] + l[i..] == l;
  }

  // ----- x*: around one state

  /** `lp` leads to `s` and `s` to `rp`, and the fragment goes from `s` around to `s`. */
  ghost predicate StarShape(B: set<Arc>, I: set<nat>, lp: nat, s: nat, rp: nat) {
    && lp != s && s != rp && lp != rp && lp !in I && s !in I && rp !in I
    && EmptyArc(lp, s) in B && EmptyArc(s, rp) in B
    && (forall a :: a in B && a.from == lp ==> a == EmptyArc(lp, s))
    && (forall a :: a in B && (a.from == s || a.from in I) ==> a == EmptyArc(s, rp) || a.to == s || a.to in I)
  }

  /** A way out of the loop is some rounds of it. */
  lemma {:induction false} StarOut(B: set<Arc>, I: set<nat>, lp: nat, s: nat, rp: nat, u: nat, l: seq<Label>, n: nat)
    returns (i: nat, m: nat, k: nat)
    requires StarShape(B, I, lp, s, rp) && (u == s || u in I) && Through(B, I + {s}, u, rp, l, n)
    ensures i <= |l| && l[i..] in Power(Lang(B, I, s, s), k)
    ensures if u == s then i == 0 else Through(B, I, u, s, l[..i], m)
    decreases n
  {
    var X := Lang(B, I, s, s);
    var a := FirstArc(B, I + {s}, u, rp, l, n);
    if a == EmptyArc(s, rp) {
      i, m, k := 0, 0, 0;
      assert n == 1 && l == [] && l in Power(X, 0);
    } else {
      i, m, k := StarOut(B, I, lp, s, rp, a.to, l[|LabelOf(a)|..], n - 1);
      i, m := LongerStart(B, I, a, s, l, i, m);
      if u == s {
        InLang(B, I, s, s, l[..i], m);
        RoundMore(X, l, i, k);
        assert l == l[0..];
        i, k := 0, k + 1;
      }
    }
  }

  /** Any number of rounds leads out of the loop. */
  lemma {:induction false} StarIn(B: set<Arc>, I: set<nat>, lp: nat, s: nat, rp: nat, l: seq<Label>, k: nat) returns (n: nat)
    requires StarShape(B, I, lp, s, rp) && l in Power(Lang(B, I, s, s), k)
    ensures Through(B, I + {s}, s, rp, l, n)
    decreases k
  {
    if k == 0 {
      OneArc(B, I + {s}, EmptyArc(s, rp));
      n := 1;
    } else {
      var i :| 0 <= i <= |l| && l[..i] in Lang(B, I, s, s) && l[i..] in Power(Lang(B, I, s, s), k - 1);
      var m: nat :| Through(B, I, s, s, l[..i], m);
      n := StarIn(B, I, lp, s, rp, l[i..], k - 1);
      ThroughAppend(B, I, I + {s}, I + {s}, s, s, rp, l[..i], l[i..], m, n);
      assert l[..i] + l[i..] == l;
      n := m + n;
    }
  }

  lemma StarWords(B: set<Arc>, I: set<nat>, lp: nat, s: nat, rp: nat)
    requires StarShape(B, I, lp, s, rp)
    ensures Lang(B, I + {s}, lp, rp) == Reps(Lang(B, I, s, s), 0, INFINITY)
  {
    var X := Lang(B, I, s, s);
    forall l: seq<Label> ensures l in Lang(B, I + {s}, lp, rp) <==> l in Reps(X, 0, INFINITY) {
      if n: nat :| Through(B, I + {s}, lp, rp, l, n) {
        var a := FirstArc(B, I + {s}, lp, rp, l, n);
        var i, m, k := StarOut(B, I, lp, s, rp, s, l[0..], n - 1);
        assert l[0..] == l;
      }
      if k: nat :| l in Power(X, k) {
        var n := StarIn(B, I, lp, s, rp, l, k);
        MoreArcs(B, I + {s}, EmptyArc(lp, s), rp, l, n);
        assert [] + l == l;
        InLang(B, I + {s}, lp, rp, l, n + 1);
      }
    }
    Same(Lang(B, I + {s}, lp, rp), Reps(X, 0, INFINITY));
  }

  // ----- x+: with an arc back

  /** `lp` leads to `s`, the fragment from `s` to `s2`, and `s2` to `rp` or back to `s`. */
  ghost predicate PlusShape(B: set<Arc>, I: set<nat>, lp: nat, s: nat, s2: nat, rp: nat) {
    && lp != s && lp != s2 && lp != rp && s != s2 && s != rp && s2 != rp && lp !in I && s !in I && s2 !in I && rp !in I
    && EmptyArc(lp, s) in B && EmptyArc(s2, rp) in B && EmptyArc(s2, s) in B
    && (forall a :: a in B && a.from == lp ==> a == EmptyArc(lp, s))
    && (forall a :: a in B && a.from == s2 ==> a == EmptyArc(s2, rp) || a == EmptyArc(s2, s))
    && (forall a :: a in B && (a.from == s || a.from in I) ==> a.to == s2 || a.to in I)
  }

  lemma {:induction false} PlusOut(B: set<Arc>, I: set<nat>, lp: nat, s: nat, s2: nat, rp: nat, u: nat, l: seq<Label>, n: nat)
    returns (i: nat, m: nat, k: nat)
    requires PlusShape(B, I, lp, s, s2, rp) && (u == s || u == s2 || u in I) && Through(B, I + {s, s2}, u, rp, l, n)
    ensures i <= |l| && l[i..] in Power(Lang(B, I, s, s2), k)
    ensures if u == s2 then i == 0 else Through(B, I, u, s2, l[..i], m)
    decreases n
  {
    var X, J := Lang(B, I, s, s2), I + {s, s2};
    var a := FirstArc(B, J, u, rp, l, n);
    var rest := l[|LabelOf(a)|..];
    if a == EmptyArc(s2, rp) {
      i, m, k := 0, 0, 0;
      assert n == 1 && l == [] && l in Power(X, 0);
    } else {
      i, m, k := PlusOut(B, I, lp, s, s2, rp, a.to, rest, n - 1);
      if u == s2 {
        InLang(B, I, s, s2, rest[..i], m);
        RoundMore(X, rest, i, k);
        assert rest == l == l[0..];
        i, k := 0, k + 1;
      } else {
        i, m := LongerStart(B, I, a, s2, l, i, m);
      }
    }
  }

  lemma {:induction false} PlusIn(B: set<Arc>, I: set<nat>, lp: nat, s: nat, s2: nat, rp: nat, l: seq<Label>, k: nat) returns (n: nat)
    requires PlusShape(B, I, lp, s, s2, rp) && l in Power(Lang(B, I, s, s2), k)
    ensures Through(B, I + {s, s2}, s2, rp, l, n)
    decreases k, 1
  {
    var J := I + {s, s2};
    if k == 0 {
      OneArc(B, J, EmptyArc(s2, rp));
      n := 1;
    } else {
      n := PlusOnce(B, I, lp, s, s2, rp, l, k);
      MoreArcs(B, J, EmptyArc(s2, s), rp, l, n);
      assert [] + l == l;
      n := n + 1;
    }
  }

  lemma {:induction false} PlusOnce(B: set<Arc>, I: set<nat>, lp: nat, s: nat, s2: nat, rp: nat, l: seq<Label>, k: nat) returns (n: nat)
    requires PlusShape(B, I, lp, s, s2, rp) && k > 0 && l in Power(Lang(B, I, s, s2), k)
    ensures Through(B, I + {s, s2}, s, rp, l, n)
    decreases k, 0
  {
    var i :| 0 <= i <= |l| && l[..i] in Lang(B, I, s, s2) && l[i..] in Power(Lang(B, I, s, s2), k - 1);
    var m: nat :| Through(B, I, s, s2, l[..i], m);
    n := PlusIn(B, I, lp, s, s2, rp, l[i..], k - 1);
    ThroughAppend(B, I, I + {s, s2}, I + {s, s2}, s, s2, rp, l[..i], l[i..], m, n);
    assert l[..i] + l[i..] == l;
    n := m + n;
  }

  lemma PlusWords(B: set<Arc>, I: set<nat>, lp: nat, s: nat, s2: nat, rp: nat)
    requires PlusShape(B, I, lp, s, s2, rp)
    ensures Lang(B, I + {s, s2}, lp, rp) == Reps(Lang(B, I, s, s2), 1, INFINITY)
  {
    var X, J := Lang(B, I, s, s2), I + {s, s2};
    forall l: seq<Label> ensures l in Lang(B, J, lp, rp) <==> l in Reps(X, 1, INFINITY) {
      if n: nat :| Through(B, J, lp, rp, l, n) {
        var a := FirstArc(B, J, lp, rp, l, n);
        assert l[0..] == l;
        var i, m, k := PlusOut(B, I, lp, s, s2, rp, s, l, n - 1);
        InLang(B, I, s, s2, l[..i], m);
        RoundMore(X, l, i, k);
      }
      if k: nat :| k >= 1 && l in Power(X, k) {
        var n := PlusOnce(B, I, lp, s, s2, rp, l, k);
        MoreArcs(B, J, EmptyArc(lp, s), rp, l, n);
        assert [] + l == l;
        InLang(B, J, lp, rp, l, n + 1);
      }
    }
    Same(Lang(B, J, lp, rp), Reps(X, 1, INFINITY));
  }

  // ----- alternatives

  /** Between `init` and `final` hang some alternatives, by the states `J`, and one more:
      the fragment from `l` to `r`, reached and left by EMPTY arcs. */
  ghost predicate AltShape(A: set<Arc>, init: nat, final: nat, J: set<nat>, l: nat, r: nat, K: set<nat>) {
    && init != final && l != init && l != final && r != init && r != final && l !in J && r !in J && init !in J && final !in J
    && J !! K && init !in K && final !in K && Fragment(A, l, r, K)
    && EmptyArc(init, l) in A && EmptyArc(r, final) in A
    && (forall a :: a in A && (a.to == l || a.from == r) ==> a == EmptyArc(init, l) || a == EmptyArc(r, final))
    && (forall a :: a in A && (a.from == init || a.from in J) ==> a == EmptyArc(init, l) || a.to == final || a.to in J)
  }

  lemma {:induction false} OtherAlternative(A: set<Arc>, init: nat, final: nat, J: set<nat>, l: nat, r: nat, K: set<nat>, u: nat, w: seq<Label>, n: nat)
    requires AltShape(A, init, final, J, l, r, K) && u in J && Through(A, J + {l, r} + K, u, final, w, n)
    ensures Through(A, J, u, final, w, n)
    decreases n
  {
    var a := FirstArc(A, J + {l, r} + K, u, final, w, n);
    if n > 1 {
      OtherAlternative(A, init, final, J, l, r, K, a.to, w[|LabelOf(a)|..], n - 1);
    }
    assert Onward(A, J, a, final, w, n);
  }

  lemma {:induction false} ThisAlternative(A: set<Arc>, init: nat, final: nat, J: set<nat>, l: nat, r: nat, K: set<nat>, u: nat, w: seq<Label>, n: nat)
    requires AltShape(A, init, final, J, l, r, K) && (u == l || u in K) && Through(A, J + {l, r} + K, u, final, w, n)
    ensures n > 1 && Through(A, K, u, r, w, n - 1)
    decreases n
  {
    var a := FirstArc(A, J + {l, r} + K, u, final, w, n);
    var rest := w[|LabelOf(a)|..];
    if a.to == r {
      var b := FirstArc(A, J + {l, r} + K, r, final, rest, n - 1);
      assert b == EmptyArc(r, final) && n == 2 && w == LabelOf(a);
      OneArc(A, K, a);
    } else {
      ThisAlternative(A, init, final, J, l, r, K, a.to, rest, n - 1);
      MoreArcs(A, K, a, r, rest, n - 2);
      assert LabelOf(a) + rest == w;
    }
  }

  /** One more alternative adds its words. */
  lemma InParallel(A: set<Arc>, init: nat, final: nat, J: set<nat>, l: nat, r: nat, K: set<nat>)
    requires AltShape(A, init, final, J, l, r, K)
    ensures Lang(A, J + {l, r} + K, init, final) == Lang(A, J, init, final) + Lang(A, K, l, r)
  {
    var I := J + {l, r} + K;
    forall w: seq<Label> ensures w in Lang(A, I, init, final) <==> w in Lang(A, J, init, final) || w in Lang(A, K, l, r) {
      if n: nat :| Through(A, I, init, final, w, n) {
        var a := FirstArc(A, I, init, final, w, n);
        assert w[0..] == w;
        if a == EmptyArc(init, l) {
          ThisAlternative(A, init, final, J, l, r, K, l, w, n - 1);
          InLang(A, K, l, r, w, n - 2);
        } else {
          if n > 1 { OtherAlternative(A, init, final, J, l, r, K, a.to, w[|LabelOf(a)|..], n - 1); }
          assert Onward(A, J, a, final, w, n);
          InLang(A, J, init, final, w, n);
        }
      }
      if n: nat :| Through(A, J, init, final, w, n) { ThroughGrow(A, J, I, init, final, w, n); }
      if n: nat :| Through(A, K, l, r, w, n) {
        OneArc(A, I, EmptyArc(r, final));
        ThroughAppend(A, K, I, I, l, r, final, w, [], n, 1);
        assert w + [] == w == [] + w;
        MoreArcs(A, I, EmptyArc(init, l), final, w, n + 1);
      }
    }
    Same(Lang(A, I, init, final), Lang(A, J, init, final) + Lang(A, K, l, r));
  }
}

/** Eliminating an EMPTY arc keeps the words of labels from pre to post. */
module EmptyWords {
  import opened Automaton
  import opened Surgery
  import opened NfaModel
  import opened Fragments

  /** `n` arcs lead from `s` to `t`, whose labels, EMPTY ones left out, are `l`. */
  ghost predicate Spells(A: set<Arc>, s: nat, t: nat, l: seq<Label>, n: nat)
    decreases n
  {
    if n == 0 then s == t && l == [] else exists a :: a in A && a.from == s && SpellsBy(A, a, t, l, n)
  }

  /** ... the first of them being `a`. */
  ghost predicate SpellsBy(A: set<Arc>, a: Arc, t: nat, l: seq<Label>, n: nat)
    requires n > 0
    decreases n, 0
  {
    LabelOf(a) <= l && Spells(A, a.to, t, l[|LabelOf(a)|..], n - 1)
  }

  ghost predicate Word(A: set<Arc>, s: nat, t: nat, l: seq<Label>) { exists n: nat :: Spells(A, s, t, l, n) }

  /** The same words of labels other than EMPTY lead from pre to post. */
  ghost predicate SameWords(x: Frame, A: set<Arc>, B: set<Arc>) {
    forall l :: Word(A, x.pre, x.post, l) <==> Word(B, x.pre, x.post, l)
  }

  lemma SameWordsTransitive(x: Frame, A: set<Arc>, B: set<Arc>, C: set<Arc>)
    requires SameWords(x, A, B) && SameWords(x, B, C)
    ensures SameWords(x, A, C)
  {
  }

  lemma SpellsFirst(A: set<Arc>, s: nat, t: nat, l: seq<Label>, n: nat) returns (a: Arc)
    requires n > 0 && Spells(A, s, t, l, n)
    ensures a in A && a.from == s && SpellsBy(A, a, t, l, n)
  {
    a :| a in A && a.from == s && SpellsBy(A, a, t, l, n);
  }

  /** One arc in front. */
  lemma WordLonger(A: set<Arc>, a: Arc, t: nat, l: seq<Label>)
    requires a in A && LabelOf(a) <= l && Word(A, a.to, t, l[|LabelOf(a)|..])
    ensures Word(A, a.from, t, l)
  {
    var n: nat :| Spells(A, a.to, t, l[|LabelOf(a)|..], n);
    assert SpellsBy(A, a, t, l, n + 1);
    assert Spells(A, a.from, t, l, n + 1);
  }

  /** What is left of the copies made on the source's side: all, or all but the arcs into the
      source if nothing else leaves it. */
  ghost predicate FromSideLeaves(A: set<Arc>, B: set<Arc>, e: Arc) {
    var C := CopiedIns(A - {e}, e.from, e.to);
    B == C || (OutArcs(A - {e}, e.from) == {} && B == C - InArcs(A - {e}, e.from))
  }

  ghost predicate ToSideLeaves(A: set<Arc>, B: set<Arc>, e: Arc) {
    var C := CopiedOuts(A - {e}, e.to, e.from);
    B == C || (InArcs(A - {e}, e.to) == {} && B == C - OutArcs(A - {e}, e.to))
  }

  /** An EMPTY arc between two states, neither of which is pre or post at the wrong end. */
  ghost predicate Between(x: Frame, A: set<Arc>, e: Arc) {
    e in A && e.kind == Empty && e.from != e.to && x.Distinct() && Shaped(x, A)
  }

  /** A path whose first arc is not `e`: where it goes by an arc and `e`, it now goes by a copy. */
  lemma {:induction false} FromSideFinds(x: Frame, A: set<Arc>, B: set<Arc>, e: Arc, a: Arc, l: seq<Label>, n: nat)
    requires Between(x, A, e) && FromSideLeaves(A, B, e) && a in A && a != e && n > 0 && SpellsBy(A, a, x.post, l, n)
    ensures Word(B, a.from, x.post, l)
    decreases n
  {
    var l' := l[|LabelOf(a)|..];
    if n == 1 {
      assert a.to == x.post && a in B;
      assert Spells(B, a.to, x.post, l', 0);
      WordLonger(B, a, x.post, l);
      return;
    }
    var b := SpellsFirst(A, a.to, x.post, l', n - 1);
    if b != e {
      FromSideFinds(x, A, B, e, b, l', n - 1);
      assert a.to == e.from ==> b in OutArcs(A - {e}, e.from);
      WordLonger(B, a, x.post, l);
    } else {
      assert n > 2 && l'[0..] == l';
      var c := SpellsFirst(A, e.to, x.post, l', n - 2);
      FromSideFinds(x, A, B, e, c, l', n - 2);
      var a' := a.(to := e.to);
      assert a in InArcs(A - {e}, e.from) && a' in B;
      WordLonger(B, a', x.post, l);
    }
  }

  lemma {:induction false} ToSideFinds(x: Frame, A: set<Arc>, B: set<Arc>, e: Arc, u: nat, l: seq<Label>, n: nat)
    requires Between(x, A, e) && ToSideLeaves(A, B, e) && Spells(A, u, x.post, l, n)
    requires u == e.to ==> B == CopiedOuts(A - {e}, e.to, e.from)
    ensures Word(B, u, x.post, l)
    decreases n
  {
    if n == 0 {
      assert Spells(B, u, x.post, l, 0);
      return;
    }
    var a := SpellsFirst(A, u, x.post, l, n);
    if a != e {
      assert a.to == e.to ==> a in InArcs(A - {e}, e.to);
      ToSideFinds(x, A, B, e, a.to, l[|LabelOf(a)|..], n - 1);
      WordLonger(B, a, x.post, l);
    } else {
      assert n > 1 && l[0..] == l;
      var c := SpellsFirst(A, e.to, x.post, l, n - 1);
      assert c.to == e.to ==> c in InArcs(A - {e}, e.to);
      ToSideFinds(x, A, B, e, c.to, l[|LabelOf(c)|..], n - 2);
      var c' := c.(from := e.from);
      assert c in OutArcs(A - {e}, e.to) && c' in B;
      WordLonger(B, c', x.post, l);
    }
  }

  /** A copy does what an arc and `e` did. */
  lemma {:induction false} CopiesSpell(A: set<Arc>, B: set<Arc>, e: Arc, s: nat, t: nat, l: seq<Label>, n: nat)
    requires e in A && e.kind == Empty && Spells(B, s, t, l, n)
    requires B <= CopiedIns(A - {e}, e.from, e.to) || B <= CopiedOuts(A - {e}, e.to, e.from)
    ensures Word(A, s, t, l)
    decreases n
  {
    if n == 0 {
      assert Spells(A, s, t, l, 0);
      return;
    }
    var b := SpellsFirst(B, s, t, l, n);
    var l' := l[|LabelOf(b)|..];
    CopiesSpell(A, B, e, b.to, t, l', n - 1);
    if b in A {
      WordLonger(A, b, t, l);
    } else if a :| a in InArcs(A - {e}, e.from) && b == a.(to := e.to) {
      assert l'[0..] == l';
      WordLonger(A, e, t, l');
      WordLonger(A, a, t, l);
    } else {
      var a :| a in OutArcs(A - {e}, e.to) && b == a.(from := e.from);
      assert l[0..] == l;
      WordLonger(A, a, t, l);
      WordLonger(A, e, t, l);
    }
  }

  /** Both variants keep the words. */
  lemma UnemptyKeepsWords(x: Frame, A: set<Arc>, B: set<Arc>, e: Arc)
    requires Between(x, A, e) && (FromSideLeaves(A, B, e) || ToSideLeaves(A, B, e))
    ensures SameWords(x, A, B)
  {
    forall l ensures Word(A, x.pre, x.post, l) <==> Word(B, x.pre, x.post, l) {
      if n: nat :| Spells(A, x.pre, x.post, l, n) {
        if FromSideLeaves(A, B, e) {
          var a := SpellsFirst(A, x.pre, x.post, l, n);
          FromSideFinds(x, A, B, e, a, l, n);
        } else {
          ToSideFinds(x, A, B, e, x.pre, l, n);
        }
      }
      if n: nat :| Spells(B, x.pre, x.post, l, n) { CopiesSpell(A, B, e, x.pre, x.post, l, n); }
    }
  }

  /** An EMPTY loop can be left out of any path. */
  lemma {:induction false} WithoutLoop(A: set<Arc>, e: Arc, s: nat, t: nat, l: seq<Label>, n: nat)
    requires e.kind == Empty && e.from == e.to && Spells(A, s, t, l, n)
    ensures Word(A - {e}, s, t, l)
    decreases n
  {
    if n == 0 {
      assert Spells(A - {e}, s, t, l, 0);
    } else {
      var a := SpellsFirst(A, s, t, l, n);
      WithoutLoop(A, e, a.to, t, l[|LabelOf(a)|..], n - 1);
      if a == e {
        assert l[0..] == l;
      } else {
        WordLonger(A - {e}, a, t, l);
      }
    }
  }

  lemma {:induction false} MoreSpell(A: set<Arc>, B: set<Arc>, s: nat, t: nat, l: seq<Label>, n: nat)
    requires A <= B && Spells(A, s, t, l, n)
    ensures Spells(B, s, t, l, n)
    decreases n
  {
    if n > 0 {
      var a := SpellsFirst(A, s, t, l, n);
      MoreSpell(A, B, a.to, t, l[|LabelOf(a)|..], n - 1);
      assert SpellsBy(B, a, t, l, n);
    }
  }

  lemma DropLoopKeepsWords(x: Frame, A: set<Arc>, e: Arc)
    requires e.kind == Empty && e.from == e.to
    ensures SameWords(x, A, A - {e})
  {
    forall l ensures Word(A, x.pre, x.post, l) <==> Word(A - {e}, x.pre, x.post, l) {
      if n: nat :| Spells(A, x.pre, x.post, l, n) { WithoutLoop(A, e, x.pre, x.post, l, n); }
      if n: nat :| Spells(A - {e}, x.pre, x.post, l, n) { MoreSpell(A - {e}, A, x.pre, x.post, l, n); }
    }
  }
}

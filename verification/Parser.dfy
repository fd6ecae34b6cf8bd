/** The parser's work on the NFA: expressions without captures and back references, and with one
    preference throughout. */
module Parser {
  import opened Automaton
  import opened Surgery
  import opened NfaModel
  import opened Cleanup
  import opened Fragments
  import opened Reaching
  import opened Repetition
  import opened Grammar
  import opened Climbing
  import opened Ways

  datatype Result = Done(next: nat) | Bad(error: Error)

  /** New things can be strung between `lp` and `rp`. */
  ghost predicate CanString(A: set<Arc>, S: set<nat>, lp: nat, rp: nat) {
    && lp in S && rp in S && lp != rp && OutArcs(A, lp) == {} && InArcs(A, rp) == {}
    && forall a :: a in A ==> a.from in S && a.to in S
  }

  /** To the arcs `A` between states of `S` has been added a fragment with the words `X`, from
      `lp` to `rp`, which makes `B`, between states of `T`. */
  ghost predicate Built(A: set<Arc>, S: set<nat>, lp: nat, rp: nat, I: set<nat>, X: Language, B: set<Arc>, T: set<nat>) {
    && Fragment(B, lp, rp, I) && Lang(B, I, lp, rp) == X && Outside(B, lp, I) == A && AllReached(B, lp, rp, I)
    && S <= T && I <= T && I !! S
  }

  /** Always true: it is there only for the quantifier below to be opened by. */
  predicate Unfolds(key: int) { true }

  /** Where it is so (`t`), the fragment with the words `X` is supple. */
  ghost predicate SuppleIf(t: bool, B: set<Arc>, I: set<nat>, lp: nat, rp: nat, X: Language) {
    forall key :: Unfolds(key) ==> t ==> Supple(Within(B, lp, I), lp, rp, Way(X))
  }

  lemma OpenSuppleIf(t: bool, B: set<Arc>, I: set<nat>, lp: nat, rp: nat, X: Language)
    ensures SuppleIf(t, B, I, lp, rp, X) <==> (t ==> Supple(Within(B, lp, I), lp, rp, Way(X)))
  {
    assert Unfolds(0);
  }

  // ----- atoms

  function LabelArcs(labels: set<Label>, lp: nat, rp: nat): set<Arc> { set x | x in labels :: Arc(x.0, x.1, lp, rp) }

  lemma AtomBuilt(A: set<Arc>, S: set<nat>, lp: nat, rp: nat, labels: set<Label>)
    requires CanString(A, S, lp, rp) && labels != {} && forall x :: x in labels ==> x.0 != Empty
    ensures Built(A, S, lp, rp, {}, Words(OneOf(labels)), A + LabelArcs(labels, lp, rp), S)
    ensures SuppleIf(true, A + LabelArcs(labels, lp, rp), {}, lp, rp, Words(OneOf(labels)))
  {
    var B := A + LabelArcs(labels, lp, rp);
    AtomSupple(A, lp, rp, labels);
    assert forall a :: a in A && a.from == lp ==> a in OutArcs(A, lp);
    assert forall a :: a in A && a.to == rp ==> a in InArcs(A, rp);
    forall l: seq<Label> ensures l in Lang(B, {}, lp, rp) <==> l in Words(OneOf(labels)) {
      if n: nat :| Through(B, {}, lp, rp, l, n) {
        var a := FirstArc(B, {}, lp, rp, l, n);
        assert a in LabelArcs(labels, lp, rp) && LabelOf(a) == [(a.kind, a.co)];
      }
      if x :| x in labels && l == [x] {
        var a := Arc(x.0, x.1, lp, rp);
        OneArc(B, {}, a);
        InLang(B, {}, lp, rp, l, 1);
      }
    }
    Same(Lang(B, {}, lp, rp), Words(OneOf(labels)));
    var x :| x in labels;
    JoinedBy(Within(B, lp, {}), Arc(x.0, x.1, lp, rp));
  }

  lemma AtomSupple(A: set<Arc>, lp: nat, rp: nat, labels: set<Label>)
    requires OutArcs(A, lp) == {} && lp != rp && forall x :: x in labels ==> x.0 != Empty
    ensures SuppleIf(true, A + LabelArcs(labels, lp, rp), {}, lp, rp, Words(OneOf(labels)))
  {
    var W := Within(A + LabelArcs(labels, lp, rp), lp, {});
    assert forall a :: a in A && a.from == lp ==> a in OutArcs(A, lp);
    WayLabels(labels);
    forall c | c in W ensures c.from == lp && c.to == rp && c.kind != Empty && (c.kind, c.co) in labels {
    }
    SuppleLabels(W, lp, rp, Way(Words(OneOf(labels))));
  }

  /** Arcs with all the labels. */
  method StringLabels(nfa: Nfa, labels: set<Label>, lp: nat, rp: nat)
    requires nfa.Valid() && lp in nfa.states && rp in nfa.states
    modifies nfa`arcs
    ensures nfa.Valid() && nfa.arcs == old(nfa.arcs) + LabelArcs(labels, lp, rp)
  {
    ghost var A := nfa.arcs;
    var todo := labels;
    while todo != {}
      invariant nfa.Valid() && todo <= labels && nfa.arcs == A + LabelArcs(labels - todo, lp, rp)
      decreases todo
    {
      var x :| x in todo;
      nfa.NewArc(x.0, x.1, lp, rp);
      todo := todo - {x};
    }
  }

  lemma NothingBuilt(A: set<Arc>, S: set<nat>, lp: nat, rp: nat)
    requires CanString(A, S, lp, rp)
    ensures Built(A, S, lp, rp, {}, JustEmpty(), A + {EmptyArc(lp, rp)}, S)
    ensures SuppleIf(true, A + {EmptyArc(lp, rp)}, {}, lp, rp, JustEmpty())
  {
    var B, e := A + {EmptyArc(lp, rp)}, EmptyArc(lp, rp);
    WayEmpty();
    NothingSupple(A, lp, rp);
    assert forall a :: a in A && a.from == lp ==> a in OutArcs(A, lp);
    assert forall a :: a in A && a.to == rp ==> a in InArcs(A, rp);
    forall l: seq<Label> ensures l in Lang(B, {}, lp, rp) <==> l in JustEmpty() {
      if n: nat :| Through(B, {}, lp, rp, l, n) {
        var a := FirstArc(B, {}, lp, rp, l, n);
      }
      OneArc(B, {}, e);
      InLang(B, {}, lp, rp, [], 1);
    }
    Same(Lang(B, {}, lp, rp), JustEmpty());
    JoinedBy(Within(B, lp, {}), e);
  }

  lemma NothingSupple(A: set<Arc>, lp: nat, rp: nat)
    requires OutArcs(A, lp) == {} && lp != rp
    ensures Supple(Within(A + {EmptyArc(lp, rp)}, lp, {}), lp, rp, true)
  {
    assert forall a :: a in A && a.from == lp ==> a in OutArcs(A, lp);
    SuppleLabels(Within(A + {EmptyArc(lp, rp)}, lp, {}), lp, rp, true);
  }

  // ----- one more alternative

  /** Alternatives with the words `X` have been hung between `init` and `final` so far. */
  ghost predicate Hanging(A: set<Arc>, S: set<nat>, init: nat, final: nat, I: set<nat>, X: Language, B: set<Arc>, T: set<nat>) {
    && Fragment(B, init, final, I) && Lang(B, I, init, final) == X && Outside(B, init, I) == A
    && (forall u :: u in I ==> Joined(Within(B, init, I), init, u))
    && S <= T && I <= T && I !! S && init in S && final in S
    && forall b :: b in B ==> b.from in T && b.to in T
  }

  lemma NoneHanging(A: set<Arc>, S: set<nat>, init: nat, final: nat)
    requires CanString(A, S, init, final)
    ensures Hanging(A, S, init, final, {}, iset{}, A, S) && SuppleIf(true, A, {}, init, final, iset{})
  {
    assert Within(A, init, {}) == {} by { assert forall a :: a in A && a.from == init ==> a in OutArcs(A, init); }
    SuppleLabels({}, init, final, Way(iset{}));

    assert forall a :: a in A && a.from == init ==> a in OutArcs(A, init);
    assert forall a :: a in A && a.to == final ==> a in InArcs(A, final);
    forall l: seq<Label> ensures l !in Lang(A, {}, init, final) {
      if n: nat :| Through(A, {}, init, final, l, n) {
        var a := FirstArc(A, {}, init, final, l, n);
      }
    }
  }

  lemma HangingBuilt(A: set<Arc>, S: set<nat>, init: nat, final: nat, I: set<nat>, X: Language, B: set<Arc>, T: set<nat>)
    requires Hanging(A, S, init, final, I, X, B, T) && Joined(Within(B, init, I), init, final)
    ensures Built(A, S, init, final, I, X, B, T)
  {
  }

  /** The arcs that lead to a new alternative and back. */
  function Hooks(init: nat, final: nat, l: nat, r: nat): set<Arc> { {EmptyArc(init, l), EmptyArc(r, final)} }

  ghost predicate NewAlternative(B: set<Arc>, T: set<nat>, init: nat, final: nat, l: nat, r: nat, K: set<nat>, Y: Language, C: set<Arc>, U: set<nat>) {
    && l !in T && r !in T && l != r && Built(B + Hooks(init, final, l, r), T + {l, r}, l, r, K, Y, C, U)
  }

  /** Whether an arc is one of the old ones, a hook, or part of the new alternative. */
  lemma AlternativeArcs(B: set<Arc>, T: set<nat>, init: nat, final: nat, l: nat, r: nat, K: set<nat>, Y: Language, C: set<Arc>, U: set<nat>, c: Arc)
    requires NewAlternative(B, T, init, final, l, r, K, Y, C, U) && init in T && final in T
    requires forall b :: b in B ==> b.from in T && b.to in T
    ensures c in C && c.from != l && c.from !in K <==> c in B || c in Hooks(init, final, l, r)
    ensures c in C && (c.from == l || c.from in K) ==> c.to == r || c.to in K
  {
    assert c in Outside(C, l, K) <==> c in B + Hooks(init, final, l, r);
    assert c in B ==> c.from in T + {l, r};
  }

  lemma AlternativeShape(B: set<Arc>, T: set<nat>, init: nat, final: nat, J: set<nat>, l: nat, r: nat, K: set<nat>, Y: Language, C: set<Arc>, U: set<nat>)
    requires NewAlternative(B, T, init, final, l, r, K, Y, C, U) && init in T && final in T && J <= T
    requires Fragment(B, init, final, J) && forall b :: b in B ==> b.from in T && b.to in T
    ensures AltShape(C, init, final, J, l, r, K) && Fragment(C, init, final, J + {l, r} + K)
    ensures Outside(C, init, J + {l, r} + K) == Outside(B, init, J)
    ensures forall c: Arc :: c.from == init || c.from in J ==> (c in C <==> c in B || c == EmptyArc(init, l))
  {
    forall c: Arc
      ensures c in C && c.from != l && c.from !in K <==> c in B || c in Hooks(init, final, l, r)
      ensures c in C && (c.from == l || c.from in K) ==> c.to == r || c.to in K
    {
      AlternativeArcs(B, T, init, final, l, r, K, Y, C, U, c);
    }
    assert EmptyArc(init, l) in Hooks(init, final, l, r) && EmptyArc(r, final) in Hooks(init, final, l, r);
  }

  lemma AlternativeReached(B: set<Arc>, T: set<nat>, init: nat, final: nat, J: set<nat>, l: nat, r: nat, K: set<nat>, Y: Language, C: set<Arc>, U: set<nat>)
    requires NewAlternative(B, T, init, final, l, r, K, Y, C, U) && EmptyArc(init, l) in C && EmptyArc(r, final) in C
    requires Within(B, init, J) <= Within(C, init, J)
    requires forall u :: u in J ==> Joined(Within(B, init, J), init, u)
    ensures AllReached(C, init, final, J + {l, r} + K)
  {
    var I := J + {l, r} + K;
    var W := Within(C, init, I);
    forall u | u in J ensures Joined(W, init, u) { WithinMore(B, C, init, J, init, I, u); }
    JoinedBy(W, EmptyArc(init, l));
    JoinedBy(W, EmptyArc(r, final));
    forall u | u in K || u == r ensures Joined(W, init, u) {
      WithinMore(C, C, l, K, init, I, u);
      JoinedVia(W, init, l, u);
    }
    JoinedVia(W, init, r, final);
  }

  lemma OneMoreAlternative(A: set<Arc>, S: set<nat>, init: nat, final: nat, J: set<nat>, X: Language, B: set<Arc>, T: set<nat>,
                           l: nat, r: nat, K: set<nat>, Y: Language, C: set<Arc>, U: set<nat>, t: bool)
    requires Hanging(A, S, init, final, J, X, B, T) && NewAlternative(B, T, init, final, l, r, K, Y, C, U)
    requires forall c :: c in C ==> c.from in U && c.to in U
    ensures Built(A, S, init, final, J + {l, r} + K, X + Y, C, U) && Hanging(A, S, init, final, J + {l, r} + K, X + Y, C, U)
    ensures SuppleIf(t, B, J, init, final, X) && SuppleIf(t, C, K, l, r, Y) ==> SuppleIf(t, C, J + {l, r} + K, init, final, X + Y)
  {
    AlternativeSupple(A, S, init, final, J, X, B, T, l, r, K, Y, C, U, t);
    AlternativeShape(B, T, init, final, J, l, r, K, Y, C, U);
    InParallel(C, init, final, J, l, r, K);
    OldAlternatives(B, C, J, init, final, l, T);
    forall c | c in Within(B, init, J) ensures c in Within(C, init, J) {
      assert c in C;
    }
    AlternativeReached(B, T, init, final, J, l, r, K, Y, C, U);
  }

  lemma AlternativeSupple(A: set<Arc>, S: set<nat>, init: nat, final: nat, J: set<nat>, X: Language, B: set<Arc>, T: set<nat>,
                          l: nat, r: nat, K: set<nat>, Y: Language, C: set<Arc>, U: set<nat>, t: bool)
    requires Hanging(A, S, init, final, J, X, B, T) && NewAlternative(B, T, init, final, l, r, K, Y, C, U)
    ensures SuppleIf(t, B, J, init, final, X) && SuppleIf(t, C, K, l, r, Y) ==> SuppleIf(t, C, J + {l, r} + K, init, final, X + Y)
  {
    var F, G, W := Within(B, init, J), Within(C, l, K), Within(C, init, J + {l, r} + K);
    AlternativeShape(B, T, init, final, J, l, r, K, Y, C, U);
    assert W <= F + G + {EmptyArc(init, l), EmptyArc(r, final)};
    WayEither(X, Y);
    OpenSuppleIf(t, B, J, init, final, X);
    OpenSuppleIf(t, C, K, l, r, Y);
    if Supple(F, init, final, Way(X)) && Supple(G, l, r, Way(Y)) {
      SuppleBeside(F, G, W, J + {init, final}, K + {l, r}, init, final, l, r, Way(X), Way(Y));
    }
  }

  /** The new hook is of no use to the old alternatives. */
  lemma OldAlternatives(B: set<Arc>, C: set<Arc>, J: set<nat>, init: nat, final: nat, l: nat, T: set<nat>)
    requires forall c: Arc :: c.from == init || c.from in J ==> (c in C <==> c in B || c == EmptyArc(init, l))
    requires l !in J && l != final
    ensures Lang(C, J, init, final) == Lang(B, J, init, final)
  {
    forall w: seq<Label> ensures w in Lang(C, J, init, final) <==> w in Lang(B, J, init, final) {
      if n: nat :| Through(B, J, init, final, w, n) { ThroughSame(B, C, J, init, final, w, n); }
      if n: nat :| Through(C, J, init, final, w, n) {
        NotByHook(B, C, J, init, final, l, init, w, n);
        InLang(B, J, init, final, w, n);
      }
    }
    Same(Lang(C, J, init, final), Lang(B, J, init, final));
  }

  lemma {:induction false} NotByHook(B: set<Arc>, C: set<Arc>, J: set<nat>, init: nat, final: nat, l: nat, u: nat, w: seq<Label>, n: nat)
    requires forall c: Arc :: c.from == init || c.from in J ==> (c in C <==> c in B || c == EmptyArc(init, l))
    requires l !in J && l != final && (u == init || u in J) && Through(C, J, u, final, w, n)
    ensures Through(B, J, u, final, w, n)
    decreases n
  {
    var a := FirstArc(C, J, u, final, w, n);
    if n > 1 {
      NotByHook(B, C, J, init, final, l, a.to, w[|LabelOf(a)|..], n - 1);
    }
    assert Onward(B, J, a, final, w, n);
  }

  // ----- one more in a row

  /** The fragment's right end moved back to a new state. */
  lemma MovedBack(A: set<Arc>, S: set<nat>, lp: nat, rp: nat, I: set<nat>, X: Language, B: set<Arc>, T: set<nat>, s: nat, t: bool)
    requires Built(A, S, lp, rp, I, X, B, T) && lp in S && rp in S && s !in T && forall b :: b in B ==> b.from in T && b.to in T
    ensures var C := MovedIns(B, rp, s);
            && Fragment(C, lp, s, I) && Lang(C, I, lp, s) == X && Outside(C, lp, I) == A && AllReached(C, lp, s, I)
            && CanString(C, T + {s}, s, rp)
            && (SuppleIf(t, B, I, lp, rp, X) ==> SuppleIf(t, C, I, lp, s, X))
  {
    var C := MovedIns(B, rp, s);
    BackArcs(B, I, lp, rp, T, s);
    BackSupple(B, I, lp, rp, C, s, X, t);
    MovedSpeaksAlike(B, I, lp, rp, C, lp, s);
    BackReached(B, I, lp, rp, C, s);
    forall a: Arc ensures a in Outside(C, lp, I) <==> a in Outside(B, lp, I) {
      assert a in B && a.to != rp ==> a in C;
    }
    assert forall c :: c in C ==> c.to != rp && c.from != s && c.from in T + {s} && c.to in T + {s};
  }

  lemma BackArcs(B: set<Arc>, I: set<nat>, lp: nat, rp: nat, T: set<nat>, s: nat)
    requires Fragment(B, lp, rp, I) && I <= T && lp in T && rp in T && s !in T && forall b :: b in B ==> b.from in T && b.to in T
    ensures var C := MovedIns(B, rp, s); Fragment(C, lp, s, I) && Moved(B, I, lp, rp, C, lp, s)
    ensures forall c :: c in MovedIns(B, rp, s) ==> c.to != rp && c.from in T && (c.to in T || c.to == s)
    ensures forall a :: a in B && a.to != rp ==> a in MovedIns(B, rp, s)
    ensures forall c :: c in MovedIns(B, rp, s) && c.to != s ==> c in B
  {
    var C := MovedIns(B, rp, s);
    assert forall b :: b in B && b.to == rp ==> b in InArcs(B, rp);
    forall b | b in Within(B, lp, I) ensures Strung(b, Itself(I), lp, rp, lp, s) in C {
      if b.to == rp { assert b in InArcs(B, rp) && b.(to := s) in C; }
    }
    forall c | c in C
      ensures (c.from == lp || c.from in I <==> c.to == s || c.to in I) && c.to != rp && c.from in T && (c.to in T || c.to == s)
      ensures c.to != s ==> c in B
      ensures c.from == lp || c.from in I ==> exists b :: b in B && b.from == c.from && c == Strung(b, Itself(I), lp, rp, lp, s)
    {
      var b := if c.to == s then c.(to := rp) else c;
      assert b in B;
      assert c.from == lp || c.from in I ==> c == Strung(b, Itself(I), lp, rp, lp, s);
    }
  }

  lemma BackSupple(B: set<Arc>, I: set<nat>, lp: nat, rp: nat, C: set<Arc>, s: nat, X: Language, t: bool)
    requires Fragment(B, lp, rp, I) && C == MovedIns(B, rp, s) && Fragment(C, lp, s, I) && s != rp
    requires forall c :: c in C ==> c.to != rp
    ensures SuppleIf(t, B, I, lp, rp, X) ==> SuppleIf(t, C, I, lp, s, X)
  {
    var F, W, f := Within(B, lp, I), Within(C, lp, I), (u: nat) => if u == s then rp else u;
    forall c | c in W && (c in B || c.to == s) ensures Arc(c.kind, c.co, f(c.from), f(c.to)) in F {
      if c.to == s {
        assert c.(to := rp) in B || c in B;
      }
    }
    assert Images(F, W, f);
    OpenSuppleIf(t, B, I, lp, rp, X);
    if Supple(F, lp, rp, Way(X)) { SuppleImage(F, W, f, lp, rp, lp, s, Way(X)); }
  }

  lemma BackReached(B: set<Arc>, I: set<nat>, lp: nat, rp: nat, C: set<Arc>, s: nat)
    requires Fragment(B, lp, rp, I) && Moved(B, I, lp, rp, C, lp, s) && AllReached(B, lp, rp, I)
    ensures AllReached(C, lp, s, I)
  {
    var f := Rehung(lp, rp, lp, s);
    MovedRehung(B, I, lp, rp, C, lp, s);
    forall u | u in I || u == rp ensures Joined(Within(C, lp, I), lp, f(u)) {
      ReachedRehung(B, I, lp, rp, C, lp, s, lp, I, u);
    }
    assert forall u :: u in I ==> f(u) == u;
    assert Joined(Within(C, lp, I), lp, f(rp));
  }

  lemma OneMoreInRow(A: set<Arc>, S: set<nat>, lp: nat, s: nat, rp: nat, I: set<nat>, X: Language, B: set<Arc>, T: set<nat>,
                     K: set<nat>, Y: Language, C: set<Arc>, U: set<nat>, t: bool)
    requires Fragment(B, lp, s, I) && Lang(B, I, lp, s) == X && Outside(B, lp, I) == A && AllReached(B, lp, s, I)
    requires Built(B, T, s, rp, K, Y, C, U) && lp in S && rp in S && S <= T && I <= T && I !! S && s in T && s !in S && s !in I && lp != rp
    requires forall b :: b in B ==> b.from in T && b.to in T
    ensures Built(A, S, lp, rp, I + {s} + K, Cat(X, Y), C, U)
    ensures SuppleIf(t, B, I, lp, s, X) && SuppleIf(t, C, K, s, rp, Y) ==> SuppleIf(t, C, I + {s} + K, lp, rp, Cat(X, Y))
  {
    RowSupple(lp, s, rp, I, X, B, T, K, Y, C, t);
    assert forall c: Arc :: c.from != s && c.from !in K ==> (c in C <==> c in Outside(C, s, K));
    forall c: Arc | c.from == lp || c.from in I ensures c in B <==> c in C {
      assert c in Outside(C, s, K) <==> c in C;
    }
    LangSame(B, C, I, lp, s);
    forall c | c in C ensures c.from == lp || c.from in I <==> c.to == s || c.to in I {
      if c.from != s && c.from !in K { assert c in B; }
    }
    InARow(C, I, K, lp, s, rp);
    SameReached(B, C, lp, s, I);
    ReachedInARow(C, I, K, lp, s, rp);
    forall c: Arc ensures c in Outside(C, lp, I + {s} + K) <==> c in A {
      assert c in Outside(C, s, K) <==> c in B;
      assert c in A <==> c in Outside(B, lp, I);
    }
  }

  lemma RowSupple(lp: nat, s: nat, rp: nat, I: set<nat>, X: Language, B: set<Arc>, T: set<nat>, K: set<nat>, Y: Language, C: set<Arc>, t: bool)
    requires Fragment(B, lp, s, I) && Fragment(C, s, rp, K) && Outside(C, s, K) == B && K !! T && I <= T && lp in T && s in T && rp in T && lp != rp
    requires s !in I && lp != s && rp !in I
    ensures SuppleIf(t, B, I, lp, s, X) && SuppleIf(t, C, K, s, rp, Y) ==> SuppleIf(t, C, I + {s} + K, lp, rp, Cat(X, Y))
  {
    var F, G, W := Within(B, lp, I), Within(C, s, K), Within(C, lp, I + {s} + K);
    forall c | c in W ensures c in F + G {
      if c !in G { assert c in Outside(C, s, K); }
    }
    WayCat(X, Y);
    OpenSuppleIf(t, B, I, lp, s, X);
    OpenSuppleIf(t, C, K, s, rp, Y);
    if Supple(F, lp, s, Way(X)) && Supple(G, s, rp, Way(Y)) {
      SuppleInARow(F, G, W, I + {lp, s}, K + {s, rp}, lp, s, rp, Way(X), Way(Y));
    }
  }

  // ----- labels

  function TokenLabels(t: Token): set<Label> { if t.Atom? || t.Constraint? || t.Close? then t.labels else {} }

  /** The labels that come in are those of tokens, and EMPTY. */
  ghost predicate Sourced(ts: seq<Token>, A: set<Arc>, B: set<Arc>) {
    forall b :: b in B ==> b in A || LabelOf(b) == [] || FromTokens(ts, b.kind, b.co) || (b.kind, b.co) in Labels(A)
  }

  ghost predicate FromTokens(ts: seq<Token>, kind: Kind, co: int) { exists t :: t in ts && (kind, co) in TokenLabels(t) }

  lemma SourcedTransitive(ts: seq<Token>, A: set<Arc>, B: set<Arc>, C: set<Arc>)
    requires Sourced(ts, A, B) && Sourced(ts, B, C)
    ensures Sourced(ts, A, C)
  {
    forall c | c in C ensures c in A || LabelOf(c) == [] || FromTokens(ts, c.kind, c.co) || (c.kind, c.co) in Labels(A) {
      if c !in B && LabelOf(c) != [] && !FromTokens(ts, c.kind, c.co) {
        var b :| b in B && b.kind == c.kind && b.co == c.co;
      }
    }
  }

  lemma NoNewSourced(ts: seq<Token>, A: set<Arc>, B: set<Arc>)
    requires NoNewLabels(A, B)
    ensures Sourced(ts, A, B)
  {
  }

  // ----- the quantifier

  /** The words of the fragment are those of what has been read. */
  ghost predicate Outcome(p: Parsed, r: Result, A: set<Arc>, S: set<nat>, lp: nat, rp: nat, I: set<nat>, B: set<Arc>, T: set<nat>) {
    match p
    case Failed(e) => r == Bad(e)
    case Parsed(re, next) => r == Done(next) && Built(A, S, lp, rp, I, Words(re), B, T) && SuppleIf(Tame(re), B, I, lp, rp, Words(re))
  }

  /** The state of the NFA around a fragment that has been built. */
  ghost predicate Holds(nfa: Nfa, A: set<Arc>, S: set<nat>, lp: nat, rp: nat, I: set<nat>, X: Language)
    reads nfa
  {
    && nfa.Valid() && nfa.Clean() && Built(A, S, lp, rp, I, X, nfa.arcs, Members(nfa.states))
    && lp in S && rp in S && nfa.pre in S && nfa.post in S
  }

  lemma HoldsReady(nfa: Nfa, A: set<Arc>, S: set<nat>, lp: nat, rp: nat, I: set<nat>, X: Language)
    requires Holds(nfa, A, S, lp, rp, I, X)
    ensures Ready(nfa, lp, rp, I) && Reached(nfa.arcs, lp, I)
  {
    ReachedAll(nfa.arcs, lp, rp, I);
  }

  lemma RepeatBuilds(A: set<Arc>, S: set<nat>, lp: nat, rp: nat, I: set<nat>, X: Language, B: set<Arc>, T: set<nat>,
                     m: int, n: int, C: set<Arc>, U: set<nat>, I': set<nat>)
    requires Built(A, S, lp, rp, I, X, B, T) && Repeated(B, T, I, lp, rp, m, n, C, U, I') && AllReached(C, lp, rp, I')
    ensures Built(A, S, lp, rp, I', Reps(X, m, n), C, U)
  {
  }

  /** Apply the quantifier, if there is one, to the fragment of an atom. */
  method Quantify(nfa: Nfa, ts: seq<Token>, i: nat, lp: nat, rp: nat, ghost re: Re, ghost A: set<Arc>, ghost S: set<nat>, ghost I: set<nat>)
    returns (r: Result, ghost I': set<nat>)
    requires Lexed(ts) && i <= |ts| && Holds(nfa, A, S, lp, rp, I, Words(re)) && SuppleIf(Tame(re), nfa.arcs, I, lp, rp, Words(re))
    modifies nfa`arcs, nfa`states, nfa`fresh_, nfa`no, nfa`nstates, nfa`tmp
    ensures nfa.Valid() && nfa.Clean()
    ensures Outcome(Quantified(re, ts, i), r, A, S, lp, rp, I', nfa.arcs, Members(nfa.states))
    ensures Sourced(ts, old(nfa.arcs), nfa.arcs)
  {
    r, I' := Done(i), I;
    if i < |ts| && ts[i].Quant? {
      var m, n := ts[i].m, ts[i].n;
      assert ts[i] in ts;
      if m > n {
        return Bad(BadBraces), I;
      }
      r := Done(i + 1);
      ghost var B := nfa.arcs;
      I' := Multiply(nfa, m, n, lp, rp, Words(re), A, S, I);
      NoNewSourced(ts, B, nfa.arcs);
      TimesSupple(B, I, lp, rp, nfa.arcs, I', re, m, n);
    }
  }

  lemma TimesSupple(B: set<Arc>, I: set<nat>, lp: nat, rp: nat, C: set<Arc>, I': set<nat>, re: Re, m: int, n: int)
    requires 0 <= m <= n && SuppleIf(Tame(re), B, I, lp, rp, Words(re)) && StaysSupple(B, I, lp, rp, C, I', n == INFINITY, m == 0)
    ensures SuppleIf(Tame(Times(re, m, n)), C, I', lp, rp, Words(Times(re, m, n)))
  {
    WayReps(Words(re), m, n);
    OpenSuppleIf(Tame(re), B, I, lp, rp, Words(re));
    if Tame(Times(re, m, n)) {
      var way := Way(Words(re));
      assert Supple(Within(B, lp, I), lp, rp, way) && (way ==> !(n == INFINITY));
    }
  }

  method Multiply(nfa: Nfa, m: int, n: int, lp: nat, rp: nat, ghost X: Language, ghost A: set<Arc>, ghost S: set<nat>, ghost I: set<nat>)
    returns (ghost I': set<nat>)
    requires 0 <= m <= n <= INFINITY && m <= DUPMAX && Holds(nfa, A, S, lp, rp, I, X)
    modifies nfa`arcs, nfa`states, nfa`fresh_, nfa`no, nfa`nstates, nfa`tmp
    ensures nfa.Valid() && nfa.Clean() && Built(A, S, lp, rp, I', Reps(X, m, n), nfa.arcs, Members(nfa.states))
    ensures NoNewLabels(old(nfa.arcs), nfa.arcs) && StaysSupple(old(nfa.arcs), I, lp, rp, nfa.arcs, I', n == INFINITY, m == 0)
  {
    ghost var B, T := nfa.arcs, Members(nfa.states);
    HoldsReady(nfa, A, S, lp, rp, I, X);
    I' := I;
    if m == 0 && n == 0 {
      RepeatNone(nfa, lp, rp, I);
      I' := {};
      RepeatBuilds(A, S, lp, rp, I, X, B, T, m, n, nfa.arcs, Members(nfa.states), I');
    } else if !(m == 1 && n == 1) {
      var ok;
      ok, I' := Repeat(nfa, lp, rp, m, n, I);
      RepeatBuilds(A, S, lp, rp, I, X, B, T, m, n, nfa.arcs, Members(nfa.states), I');
    } else {
      RepsSmall(X);
      StaysSuppleItself(B, I, lp, rp, false, false);
    }
  }

  // ----- the parser

  /** What all parts of the parser need: the tokens, and two states to string new arcs between. */
  ghost predicate Stringable(nfa: Nfa, ts: seq<Token>, i: nat, lp: nat, rp: nat)
    reads nfa
  {
    && Lexed(ts) && i <= |ts| && nfa.Valid() && nfa.Clean() && CanString(nfa.arcs, Members(nfa.states), lp, rp)
  }

  /** A constraint, or an atom with its quantifier. */
  method ParseQatom(nfa: Nfa, ts: seq<Token>, i: nat, inner: bool, extended: bool, lp: nat, rp: nat) returns (r: Result, ghost I: set<nat>)
    requires Stringable(nfa, ts, i, lp, rp) && !SeeStop(ts, i, inner)
    modifies nfa`arcs, nfa`states, nfa`fresh_, nfa`no, nfa`nstates, nfa`tmp
    ensures nfa.Valid() && nfa.Clean()
    ensures Outcome(PieceAt(ts, i, inner, extended), r, old(nfa.arcs), Members(old(nfa.states)), lp, rp, I, nfa.arcs, Members(nfa.states))
    ensures Sourced(ts, old(nfa.arcs), nfa.arcs)
    decreases |ts| - i, 1
  {
    I := {};
    match ts[i] {
      case Constraint(_) =>
        StringToken(nfa, ts, i, lp, rp);
        r := Done(i + 1);
      case Quant(_, _) =>
        r := Bad(BadRepeat);
      case Atom(_) =>
        r, I := ParseAtom(nfa, ts, i, lp, rp);
      case Close(_) =>
        if !extended {
          return Bad(Unbalanced), {};
        }
        r, I := ParseAtom(nfa, ts, i, lp, rp);
      case Open =>
        r, I := ParseGroup(nfa, ts, i, extended, lp, rp);
    }
  }

  /** The arcs of one token. */
  method StringToken(nfa: Nfa, ts: seq<Token>, i: nat, lp: nat, rp: nat)
    requires Stringable(nfa, ts, i, lp, rp) && i < |ts| && (ts[i].Atom? || ts[i].Constraint? || ts[i].Close?)
    modifies nfa`arcs
    ensures nfa.Valid() && Built(old(nfa.arcs), Members(nfa.states), lp, rp, {}, Words(OneOf(ts[i].labels)), nfa.arcs, Members(nfa.states))
    ensures SuppleIf(true, nfa.arcs, {}, lp, rp, Words(OneOf(ts[i].labels)))
    ensures Sourced(ts, old(nfa.arcs), nfa.arcs)
  {
    ghost var A := nfa.arcs;
    assert ts[i] in ts;
    StringLabels(nfa, ts[i].labels, lp, rp);
    AtomBuilt(A, Members(nfa.states), lp, rp, ts[i].labels);
    forall b | b in nfa.arcs && b !in A ensures FromTokens(ts, b.kind, b.co) {
      assert (b.kind, b.co) in TokenLabels(ts[i]);
    }
  }

  /** An atom with its quantifier. */
  method ParseAtom(nfa: Nfa, ts: seq<Token>, i: nat, lp: nat, rp: nat) returns (r: Result, ghost I: set<nat>)
    requires Stringable(nfa, ts, i, lp, rp) && i < |ts| && (ts[i].Atom? || ts[i].Close?)
    modifies nfa`arcs, nfa`states, nfa`fresh_, nfa`no, nfa`nstates, nfa`tmp
    ensures nfa.Valid() && nfa.Clean()
    ensures Outcome(Quantified(OneOf(ts[i].labels), ts, i + 1), r, old(nfa.arcs), Members(old(nfa.states)), lp, rp, I, nfa.arcs, Members(nfa.states))
    ensures Sourced(ts, old(nfa.arcs), nfa.arcs)
  {
    ghost var A, S := nfa.arcs, Members(nfa.states);
    StringToken(nfa, ts, i, lp, rp);
    ghost var B := nfa.arcs;
    r, I := Quantify(nfa, ts, i + 1, lp, rp, OneOf(ts[i].labels), A, S, {});
    SourcedTransitive(ts, A, B, nfa.arcs);
  }

  /** What hangs on hooks of its own has the same words. */
  lemma GroupBuilt(A: set<Arc>, S: set<nat>, lp: nat, rp: nat, l: nat, r: nat, K: set<nat>, Y: Language, C: set<Arc>, U: set<nat>, t: bool)
    requires CanString(A, S, lp, rp) && NewAlternative(A, S, lp, rp, l, r, K, Y, C, U) && forall c :: c in C ==> c.from in U && c.to in U
    ensures Built(A, S, lp, rp, {l, r} + K, Y, C, U)
    ensures SuppleIf(t, C, K, l, r, Y) ==> SuppleIf(t, C, {l, r} + K, lp, rp, Y)
  {
    NoneHanging(A, S, lp, rp);
    OneMoreAlternative(A, S, lp, rp, {}, iset{}, A, S, l, r, K, Y, C, U, t);
    assert iset{} + Y == Y && {} + {l, r} + K == {l, r} + K;
  }

  /** A parenthesized expression with its quantifier. */
  method ParseGroup(nfa: Nfa, ts: seq<Token>, i: nat, extended: bool, lp: nat, rp: nat) returns (r: Result, ghost I: set<nat>)
    requires Stringable(nfa, ts, i, lp, rp) && i < |ts| && ts[i].Open?
    modifies nfa`arcs, nfa`states, nfa`fresh_, nfa`no, nfa`nstates, nfa`tmp
    ensures nfa.Valid() && nfa.Clean()
    ensures Outcome(PieceAt(ts, i, false, extended), r, old(nfa.arcs), Members(old(nfa.states)), lp, rp, I, nfa.arcs, Members(nfa.states))
    ensures Sourced(ts, old(nfa.arcs), nfa.arcs)
    decreases |ts| - i, 0
  {
    ghost var A, S := nfa.arcs, Members(nfa.states);
    r, I := ParseInner(nfa, ts, i + 1, extended, lp, rp);
    ghost var p, B := ReAt(ts, i + 1, true, extended), nfa.arcs;
    if r.Done? {
      r, I := Quantify(nfa, ts, r.next + 1, lp, rp, p.re, A, S, I);
      SourcedTransitive(ts, A, B, nfa.arcs);
    }
  }

  /** The inside of a group, between new states of its own. */
  method ParseInner(nfa: Nfa, ts: seq<Token>, i: nat, extended: bool, lp: nat, rp: nat) returns (r: Result, ghost I: set<nat>)
    requires Stringable(nfa, ts, i, lp, rp)
    modifies nfa`arcs, nfa`states, nfa`fresh_, nfa`no, nfa`nstates, nfa`tmp
    ensures nfa.Valid() && nfa.Clean()
    ensures Outcome(ReAt(ts, i, true, extended), r, old(nfa.arcs), Members(old(nfa.states)), lp, rp, I, nfa.arcs, Members(nfa.states))
    ensures Sourced(ts, old(nfa.arcs), nfa.arcs)
    decreases |ts| - i, 5
  {
    ghost var A, S := nfa.arcs, Members(nfa.states);
    I := {};
    var s, s2 := HookUp(nfa, lp, rp);
    ghost var B := nfa.arcs;
    ghost var K;
    r, K := Parse(nfa, ts, i, true, extended, s, s2);
    I := {s, s2} + K;
    assert forall b :: b in nfa.arcs ==> b.from in Members(nfa.states) && b.to in Members(nfa.states);
    GroupOutcome(ReAt(ts, i, true, extended), r, A, S, lp, rp, s, s2, K, nfa.arcs, Members(nfa.states));
    HooksSourced(ts, A, lp, rp, s, s2);
    SourcedTransitive(ts, A, B, nfa.arcs);
  }

  lemma HooksSourced(ts: seq<Token>, A: set<Arc>, lp: nat, rp: nat, s: nat, s2: nat)
    ensures Sourced(ts, A, A + Hooks(lp, rp, s, s2))
  {
  }

  lemma GroupOutcome(p: Parsed, r: Result, A: set<Arc>, S: set<nat>, lp: nat, rp: nat, s: nat, s2: nat, K: set<nat>, C: set<Arc>, U: set<nat>)
    requires CanString(A, S, lp, rp) && s !in S && s2 !in S && s != s2 && forall c :: c in C ==> c.from in U && c.to in U
    requires Outcome(p, r, A + Hooks(lp, rp, s, s2), S + {s, s2}, s, s2, K, C, U)
    ensures Outcome(p, r, A, S, lp, rp, {s, s2} + K, C, U)
  {
    if p.Parsed? { GroupBuilt(A, S, lp, rp, s, s2, K, Words(p.re), C, U, Tame(p.re)); }
  }

  /** New states, with EMPTY arcs there and back. */
  method HookUp(nfa: Nfa, init: nat, final: nat) returns (l: nat, r: nat)
    requires nfa.Valid() && init in nfa.states && final in nfa.states
    modifies nfa`arcs, nfa`states, nfa`fresh_, nfa`no, nfa`nstates
    ensures nfa.Valid() && l !in old(nfa.states) && r !in old(nfa.states) && l != r
    ensures nfa.arcs == old(nfa.arcs) + Hooks(init, final, l, r) && Members(nfa.states) == Members(old(nfa.states)) + {l, r}
    ensures CanString(nfa.arcs, Members(nfa.states), l, r)
  {
    l := nfa.NewState();
    r := nfa.NewState();
    nfa.NewArc(Empty, 0, init, l);
    nfa.NewArc(Empty, 0, r, final);
  }

  /** It has been read, and is tame. */
  ghost predicate Good(p: Parsed) { p.Parsed? && Tame(p.re) }

  /** The next branch, if it can be read, is tame. */
  ghost predicate BranchTame(t: bool, ts: seq<Token>, i: nat, inner: bool, extended: bool)
    requires i <= |ts|
  {
    t && BranchAt(ts, i, inner, extended).Parsed? ==> Tame(BranchAt(ts, i, inner, extended).re)
  }

  /** What `whole` is, after branches with the words `X` up to `j`. */
  ghost predicate AfterBranch(ts: seq<Token>, whole: Parsed, X: Language, j: nat, inner: bool, extended: bool)
    requires j <= |ts|
  {
    if j < |ts| && ts[j].Bar? then
      match ReAt(ts, j + 1, inner, extended)
      case Failed(e) => whole == Failed(e)
      case Parsed(re, next) => whole.Parsed? && whole.next == next && Words(whole.re) == X + Words(re) && (Tame(whole.re) ==> Tame(re))
    else if inner && j == |ts| then whole == Failed(Unbalanced)
    else whole.Parsed? && whole.next == j && Words(whole.re) == X
  }

  /** How an expression is made up of its first branch and what follows. */
  lemma ReUnfolds(ts: seq<Token>, i: nat, inner: bool, extended: bool, b: Parsed)
    requires i <= |ts| && b == BranchAt(ts, i, inner, extended)
    ensures ReAt(ts, i, inner, extended) ==
      if b.Failed? then b
      else if b.next < |ts| && ts[b.next].Bar? then
        var r := ReAt(ts, b.next + 1, inner, extended);
        if r.Failed? then r else Parsed(Either(b.re, r.re), r.next)
      else if inner && b.next == |ts| then Failed(Unbalanced)
      else b
  {
  }

  lemma FirstBranch(ts: seq<Token>, i: nat, inner: bool, extended: bool)
    requires i <= |ts|
    ensures var whole := ReAt(ts, i, inner, extended);
            match BranchAt(ts, i, inner, extended)
            case Failed(e) => whole == Failed(e)
            case Parsed(re, next) => AfterBranch(ts, whole, Words(re), next, inner, extended) && (Good(whole) ==> Tame(re))
  {
    var b := BranchAt(ts, i, inner, extended);
    ReUnfolds(ts, i, inner, extended, b);
    if b.Parsed? {
      Follows(ts, ReAt(ts, i, inner, extended), b, inner, extended);
    }
  }

  lemma Follows(ts: seq<Token>, whole: Parsed, b: Parsed, inner: bool, extended: bool)
    requires b.Parsed? && b.next <= |ts|
    requires whole == if b.next < |ts| && ts[b.next].Bar? then
                        var r := ReAt(ts, b.next + 1, inner, extended);
                        if r.Failed? then r else Parsed(Either(b.re, r.re), r.next)
                      else if inner && b.next == |ts| then Failed(Unbalanced)
                      else b
    ensures AfterBranch(ts, whole, Words(b.re), b.next, inner, extended) && (Good(whole) ==> Tame(b.re))
  {
  }

  lemma StartBranch(ts: seq<Token>, i: nat, inner: bool, extended: bool)
    requires i <= |ts|
    ensures var whole := ReAt(ts, i, inner, extended);
            match BranchAt(ts, i, inner, extended)
            case Failed(e) => whole == Failed(e)
            case Parsed(re, next) => AfterBranch(ts, whole, iset{} + Words(re), next, inner, extended) && (Good(whole) ==> Tame(re))
  {
    FirstBranch(ts, i, inner, extended);
    var b := BranchAt(ts, i, inner, extended);
    if b.Parsed? { assert iset{} + Words(b.re) == Words(b.re); }
  }

  lemma NextBranch(ts: seq<Token>, whole: Parsed, X: Language, j: nat, inner: bool, extended: bool)
    requires j < |ts| && ts[j].Bar? && AfterBranch(ts, whole, X, j, inner, extended)
    ensures match BranchAt(ts, j + 1, inner, extended)
            case Failed(e) => whole == Failed(e)
            case Parsed(re, next) => AfterBranch(ts, whole, X + Words(re), next, inner, extended) && (Good(whole) ==> Tame(re))
  {
    FirstBranch(ts, j + 1, inner, extended);
    var b := BranchAt(ts, j + 1, inner, extended);
    if b.Parsed? && b.next < |ts| && ts[b.next].Bar? {
      var r := ReAt(ts, b.next + 1, inner, extended);
      if r.Parsed? { assert X + Words(b.re) + Words(r.re) == X + (Words(b.re) + Words(r.re)); }
    }
  }

  /** Reading a branch at `i` has the result `r`, and adds its words to `X`. */
  ghost predicate BranchGives(ts: seq<Token>, i: nat, inner: bool, extended: bool, X: Language, r: Result, X': Language)
    requires i <= |ts|
  {
    match BranchAt(ts, i, inner, extended)
    case Failed(e) => r == Bad(e)
    case Parsed(re, next) => r == Done(next) && X' == X + Words(re)
  }

  /** Where the parser is, after the branches with the words `X`. */
  ghost predicate Between(ts: seq<Token>, whole: Parsed, X: Language, r: Result, inner: bool, extended: bool) {
    match r
    case Bad(e) => whole == Failed(e)
    case Done(j) => j <= |ts| && AfterBranch(ts, whole, X, j, inner, extended)
  }

  lemma BranchFollows(ts: seq<Token>, whole: Parsed, X: Language, j: nat, inner: bool, extended: bool, r: Result, X': Language)
    requires j < |ts| && ts[j].Bar? && AfterBranch(ts, whole, X, j, inner, extended)
    requires BranchGives(ts, j + 1, inner, extended, X, r, X')
    ensures Between(ts, whole, X', r, inner, extended) && (r.Done? ==> r.next > j)
  {
    NextBranch(ts, whole, X, j, inner, extended);
  }

  lemma FirstIsTame(ts: seq<Token>, i: nat, inner: bool, extended: bool)
    requires i <= |ts|
    ensures BranchTame(Good(ReAt(ts, i, inner, extended)), ts, i, inner, extended)
  {
    StartBranch(ts, i, inner, extended);
  }

  lemma BranchIsTame(ts: seq<Token>, whole: Parsed, X: Language, j: nat, inner: bool, extended: bool)
    requires j < |ts| && ts[j].Bar? && AfterBranch(ts, whole, X, j, inner, extended)
    ensures BranchTame(Good(whole), ts, j + 1, inner, extended)
  {
    NextBranch(ts, whole, X, j, inner, extended);
  }

  lemma BranchStarts(ts: seq<Token>, i: nat, inner: bool, extended: bool, r: Result, X': Language)
    requires i <= |ts| && BranchGives(ts, i, inner, extended, iset{}, r, X')
    ensures Between(ts, ReAt(ts, i, inner, extended), X', r, inner, extended) && (r.Done? ==> r.next >= i)
  {
    StartBranch(ts, i, inner, extended);
  }

  /** No more bars: what has been read is all. */
  lemma BranchesEnd(ts: seq<Token>, whole: Parsed, X: Language, r: Result, inner: bool, extended: bool)
    requires Between(ts, whole, X, r, inner, extended) && (r.Done? ==> r.next >= |ts| || !ts[r.next].Bar?)
    ensures match r
            case Bad(e) => whole == Failed(e)
            case Done(j) => if inner && j == |ts| then whole == Failed(Unbalanced) else whole.Parsed? && whole.next == j && Words(whole.re) == X
  {
  }

  /** One more branch, between new states of its own. */
  method ParseAlternative(nfa: Nfa, ts: seq<Token>, i: nat, inner: bool, extended: bool, init: nat, final: nat,
                          ghost A: set<Arc>, ghost S: set<nat>, ghost J: set<nat>, ghost X: Language, ghost t: bool)
    returns (r: Result, ghost I: set<nat>, ghost X': Language)
    requires Lexed(ts) && i <= |ts| && nfa.Valid() && nfa.Clean() && Hanging(A, S, init, final, J, X, nfa.arcs, Members(nfa.states))
    requires SuppleIf(t, nfa.arcs, J, init, final, X) && BranchTame(t, ts, i, inner, extended)
    modifies nfa`arcs, nfa`states, nfa`fresh_, nfa`no, nfa`nstates, nfa`tmp
    ensures nfa.Valid() && nfa.Clean()
    ensures BranchGives(ts, i, inner, extended, X, r, X')
    ensures r.Done? ==> Joined(Within(nfa.arcs, init, I), init, final)
    ensures r.Done? ==> Hanging(A, S, init, final, I, X', nfa.arcs, Members(nfa.states)) && SuppleIf(t, nfa.arcs, I, init, final, X')
    ensures Sourced(ts, old(nfa.arcs), nfa.arcs)
    decreases |ts| - i, 3
  {
    ghost var B, T := nfa.arcs, Members(nfa.states);
    I, X' := J, X;
    var left, right := HookUp(nfa, init, final);
    ghost var B' := nfa.arcs;
    assert Sourced(ts, B, B');
    ghost var K;
    r, K := ParseBranch(nfa, ts, i, inner, extended, left, right);
    SourcedTransitive(ts, B, B', nfa.arcs);
    if r.Done? {
      ghost var re := BranchAt(ts, i, inner, extended).re;
      OneMoreAlternative(A, S, init, final, J, X, B, T, left, right, K, Words(re), nfa.arcs, Members(nfa.states), t);
      I, X' := J + {left, right} + K, X + Words(re);
    }
  }

  /** What `whole` is, after pieces with the words `X` up to `j`. */
  ghost predicate AfterPiece(ts: seq<Token>, whole: Parsed, X: Language, j: nat, inner: bool, extended: bool)
    requires j <= |ts|
  {
    match BranchAt(ts, j, inner, extended)
    case Failed(e) => whole == Failed(e)
    case Parsed(re, next) => whole.Parsed? && whole.next == next && Words(whole.re) == Cat(X, Words(re)) && (Tame(whole.re) ==> Tame(re))
  }

  lemma NextPiece(ts: seq<Token>, whole: Parsed, X: Language, j: nat, inner: bool, extended: bool)
    requires j < |ts| && !SeeStop(ts, j, inner) && AfterPiece(ts, whole, X, j, inner, extended)
    ensures match PieceAt(ts, j, inner, extended)
            case Failed(e) => whole == Failed(e)
            case Parsed(re, next) => AfterPiece(ts, whole, Cat(X, Words(re)), next, inner, extended) && (Good(whole) ==> Tame(re))
  {
    var p := PieceAt(ts, j, inner, extended);
    if p.Parsed? {
      var r := BranchAt(ts, p.next, inner, extended);
      if r.Parsed? { CatAssociates(X, Words(p.re), Words(r.re)); }
    }
  }

  lemma FirstPiece(ts: seq<Token>, i: nat, inner: bool, extended: bool)
    requires i <= |ts|
    ensures AfterPiece(ts, BranchAt(ts, i, inner, extended), JustEmpty(), i, inner, extended)
  {
    var b := BranchAt(ts, i, inner, extended);
    if b.Parsed? { EmptyCat(Words(b.re)); }
  }

  lemma LastPiece(ts: seq<Token>, whole: Parsed, X: Language, j: nat, inner: bool, extended: bool)
    requires j <= |ts| && SeeStop(ts, j, inner) && AfterPiece(ts, whole, X, j, inner, extended)
    ensures whole.Parsed? && whole.next == j && Words(whole.re) == X
  {
    CatEmpty(X);
  }

  /** Pieces in a row; without any, an EMPTY arc. */
  method ParseBranch(nfa: Nfa, ts: seq<Token>, i: nat, inner: bool, extended: bool, left: nat, right: nat) returns (r: Result, ghost I: set<nat>)
    requires Stringable(nfa, ts, i, left, right)
    modifies nfa`arcs, nfa`states, nfa`fresh_, nfa`no, nfa`nstates, nfa`tmp
    ensures nfa.Valid() && nfa.Clean()
    ensures Outcome(BranchAt(ts, i, inner, extended), r, old(nfa.arcs), Members(old(nfa.states)), left, right, I, nfa.arcs, Members(nfa.states))
    ensures Sourced(ts, old(nfa.arcs), nfa.arcs)
    decreases |ts| - i, 2
  {
    ghost var A, S := nfa.arcs, Members(nfa.states);
    I := {};
    if SeeStop(ts, i, inner) {
      nfa.NewArc(Empty, 0, left, right);
      NothingBuilt(A, S, left, right);
      return Done(i), {};
    }
    ghost var whole, X := BranchAt(ts, i, inner, extended), JustEmpty();
    FirstPiece(ts, i, inner, extended);
    NextPiece(ts, whole, X, i, inner, extended);
    r, I := ParseQatom(nfa, ts, i, inner, extended, left, right);
    if r.Done? {
      X := Words(PieceAt(ts, i, inner, extended).re);
      EmptyCat(X);
    }
    while r.Done? && !SeeStop(ts, r.next, inner)
      invariant nfa.Valid() && nfa.Clean() && Sourced(ts, A, nfa.arcs)
      invariant r.Done? ==> i < r.next <= |ts| && AfterPiece(ts, whole, X, r.next, inner, extended)
      invariant r.Done? ==> Built(A, S, left, right, I, X, nfa.arcs, Members(nfa.states)) && SuppleIf(Good(whole), nfa.arcs, I, left, right, X)
      invariant r.Bad? ==> whole == Failed(r.error)
      decreases if r.Done? then |ts| - r.next + 1 else 0
    {
      ghost var B := nfa.arcs;
      NextPiece(ts, whole, X, r.next, inner, extended);
      r, I, X := NextInRow(nfa, ts, r.next, inner, extended, left, right, A, S, I, X, Good(whole));
      SourcedTransitive(ts, A, B, nfa.arcs);
    }
    if r.Done? {
      LastPiece(ts, whole, X, r.next, inner, extended);
    }
  }

  /** One more piece, for which the right end of what there is makes room. */
  method NextInRow(nfa: Nfa, ts: seq<Token>, i: nat, inner: bool, extended: bool, left: nat, right: nat,
                   ghost A: set<Arc>, ghost S: set<nat>, ghost J: set<nat>, ghost X: Language, ghost t: bool)
    returns (r: Result, ghost I: set<nat>, ghost X': Language)
    requires Lexed(ts) && i < |ts| && !SeeStop(ts, i, inner) && Holds(nfa, A, S, left, right, J, X)
    requires SuppleIf(t, nfa.arcs, J, left, right, X) && (t && PieceAt(ts, i, inner, extended).Parsed? ==> Tame(PieceAt(ts, i, inner, extended).re))
    modifies nfa`arcs, nfa`states, nfa`fresh_, nfa`no, nfa`nstates, nfa`tmp
    ensures nfa.Valid() && nfa.Clean()
    ensures match PieceAt(ts, i, inner, extended)
            case Failed(e) => r == Bad(e)
            case Parsed(re, next) =>
              && r == Done(next) && X' == Cat(X, Words(re)) && Built(A, S, left, right, I, X', nfa.arcs, Members(nfa.states))
              && SuppleIf(t, nfa.arcs, I, left, right, X')
    ensures Sourced(ts, old(nfa.arcs), nfa.arcs)
    decreases |ts| - i, 2
  {
    ghost var B, T := nfa.arcs, Members(nfa.states);
    I, X' := J, X;
    var lp := MakeRoom(nfa, left, right, A, S, J, X, t);
    ghost var C, U := nfa.arcs, Members(nfa.states);
    NoNewSourced(ts, B, C);
    ghost var K;
    r, K := ParseQatom(nfa, ts, i, inner, extended, lp, right);
    SourcedTransitive(ts, B, C, nfa.arcs);
    if r.Done? {
      ghost var re := PieceAt(ts, i, inner, extended).re;
      OneMoreInRow(A, S, left, lp, right, J, X, C, U, K, Words(re), nfa.arcs, Members(nfa.states), t);
      I, X' := J + {lp} + K, Cat(X, Words(re));
    }
  }

  /** The fragment up to `right` now ends at a new state. */
  method MakeRoom(nfa: Nfa, left: nat, right: nat, ghost A: set<Arc>, ghost S: set<nat>, ghost I: set<nat>, ghost X: Language, ghost t: bool) returns (s: nat)
    requires Holds(nfa, A, S, left, right, I, X)
    modifies nfa`arcs, nfa`states, nfa`fresh_, nfa`no, nfa`nstates
    ensures nfa.Valid() && s !in old(nfa.states) && Members(nfa.states) == Members(old(nfa.states)) + {s}
    ensures Fragment(nfa.arcs, left, s, I) && Lang(nfa.arcs, I, left, s) == X && Outside(nfa.arcs, left, I) == A
    ensures AllReached(nfa.arcs, left, s, I) && CanString(nfa.arcs, Members(nfa.states), s, right)
    ensures NoNewLabels(old(nfa.arcs), nfa.arcs) && (SuppleIf(t, old(nfa.arcs), I, left, right, X) ==> SuppleIf(t, nfa.arcs, I, left, s, X))
  {
    ghost var B, T := nfa.arcs, Members(nfa.states);
    assert forall b :: b in B ==> b.from in T && b.to in T;
    assert right in nfa.states;
    s := nfa.NewState();
    assert Members(nfa.states) == T + {s};
    MovedBack(A, S, left, right, I, X, B, T, s, t);
    MovedLabels(B, left, right, left, s, {});
    nfa.MoveIns(right, s);
  }

  /** More branches, as long as there are bars. */
  method ParseMore(nfa: Nfa, ts: seq<Token>, inner: bool, extended: bool, init: nat, final: nat, r0: Result,
                   ghost whole: Parsed, ghost A: set<Arc>, ghost S: set<nat>, ghost I0: set<nat>, ghost X0: Language)
    returns (r: Result, ghost I: set<nat>, ghost X: Language)
    requires Lexed(ts) && nfa.Valid() && nfa.Clean() && Between(ts, whole, X0, r0, inner, extended)
    requires r0.Done? ==> Joined(Within(nfa.arcs, init, I0), init, final) && Hanging(A, S, init, final, I0, X0, nfa.arcs, Members(nfa.states))
    requires r0.Done? ==> SuppleIf(Good(whole), nfa.arcs, I0, init, final, X0)
    modifies nfa`arcs, nfa`states, nfa`fresh_, nfa`no, nfa`nstates, nfa`tmp
    ensures nfa.Valid() && nfa.Clean() && Between(ts, whole, X, r, inner, extended)
    ensures r.Done? ==> Joined(Within(nfa.arcs, init, I), init, final) && Hanging(A, S, init, final, I, X, nfa.arcs, Members(nfa.states))
    ensures r.Done? ==> SuppleIf(Good(whole), nfa.arcs, I, init, final, X)
    ensures r.Done? ==> r.next >= |ts| || !ts[r.next].Bar?
    ensures Sourced(ts, old(nfa.arcs), nfa.arcs)
    decreases if r0.Done? && r0.next <= |ts| then |ts| - r0.next else 0, 3
  {
    r, I, X := r0, I0, X0;
    ghost var C := nfa.arcs;
    while r.Done? && r.next < |ts| && ts[r.next].Bar?
      invariant nfa.Valid() && nfa.Clean() && Between(ts, whole, X, r, inner, extended)
      invariant Sourced(ts, C, nfa.arcs)
      invariant r.Done? ==> r0.Done? && r0.next <= r.next <= |ts|
      invariant r.Done? ==> Joined(Within(nfa.arcs, init, I), init, final)
      invariant r.Done? ==> Hanging(A, S, init, final, I, X, nfa.arcs, Members(nfa.states)) && SuppleIf(Good(whole), nfa.arcs, I, init, final, X)
      decreases if r.Done? then |ts| - r.next + 1 else 0
    {
      ghost var j, Y, B := r.next, X, nfa.arcs;
      BranchIsTame(ts, whole, X, j, inner, extended);
      r, I, X := ParseAlternative(nfa, ts, r.next + 1, inner, extended, init, final, A, S, I, X, Good(whole));
      BranchFollows(ts, whole, Y, j, inner, extended, r, X);
      SourcedTransitive(ts, C, B, nfa.arcs);
    }
  }

  /** Branches, with bars between them. */
  method Parse(nfa: Nfa, ts: seq<Token>, i: nat, inner: bool, extended: bool, init: nat, final: nat) returns (r: Result, ghost I: set<nat>)
    requires Stringable(nfa, ts, i, init, final)
    modifies nfa`arcs, nfa`states, nfa`fresh_, nfa`no, nfa`nstates, nfa`tmp
    ensures nfa.Valid() && nfa.Clean()
    ensures Outcome(ReAt(ts, i, inner, extended), r, old(nfa.arcs), Members(old(nfa.states)), init, final, I, nfa.arcs, Members(nfa.states))
    ensures Sourced(ts, old(nfa.arcs), nfa.arcs)
    decreases |ts| - i, 4
  {
    ghost var A, S := nfa.arcs, Members(nfa.states);
    NoneHanging(A, S, init, final);
    ghost var X: Language := iset{};
    I := {};
    FirstIsTame(ts, i, inner, extended);
    r, I, X := ParseAlternative(nfa, ts, i, inner, extended, init, final, A, S, I, X, Good(ReAt(ts, i, inner, extended)));
    BranchStarts(ts, i, inner, extended, r, X);
    ghost var B := nfa.arcs;
    r, I, X := ParseMore(nfa, ts, inner, extended, init, final, r, ReAt(ts, i, inner, extended), A, S, I, X);
    SourcedTransitive(ts, A, B, nfa.arcs);
    BranchesEnd(ts, ReAt(ts, i, inner, extended), X, r, inner, extended);
    if r.Done? { HangingBuilt(A, S, init, final, I, X, nfa.arcs, Members(nfa.states)); }
    if r.Done? && inner && r.next == |ts| {
      r := Bad(Unbalanced);
    }
  }
}

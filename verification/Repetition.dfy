/** `repeat`: a bounded or unbounded repetition of a fragment. */
module Repetition {
  import opened Automaton
  import opened Surgery
  import opened NfaModel
  import opened Cleanup
  import opened Fragments
  import opened Duplicate
  import opened Deletion
  import opened Reaching
  import opened Climbing

  /** Each state of `I` as its own duplicate. */
  function Itself(I: set<nat>): map<nat, nat> { map u | u in I :: u }

  /** `B` has the fragment of `A`, moved to hang between `s` and `t`. */
  ghost predicate Moved(A: set<Arc>, I: set<nat>, lp: nat, rp: nat, B: set<Arc>, s: nat, t: nat) {
    && (forall a :: a in A && (a.from == lp || a.from in I) ==> Strung(a, Itself(I), lp, rp, s, t) in B)
    && (forall b :: b in B && (b.from == s || b.from in I) && (b.to == t || b.to in I) ==>
          exists a :: a in A && (a.from == lp || a.from in I) && b == Strung(a, Itself(I), lp, rp, s, t))
  }

  lemma MovedSpeaksAlike(A: set<Arc>, I: set<nat>, lp: nat, rp: nat, B: set<Arc>, s: nat, t: nat)
    requires Fragment(A, lp, rp, I) && Moved(A, I, lp, rp, B, s, t) && s !in I && t !in I
    ensures Lang(B, I, s, t) == Lang(A, I, lp, rp)
  {
    CopySpeaksAlike(A, I, lp, rp, I + {lp}, Itself(I), B, I, s, t);
  }

  function MovedOuts(A: set<Arc>, lp: nat, s: nat): set<Arc> { CopiedOuts(A, lp, s) - OutArcs(A, lp) }

  function MovedIns(A: set<Arc>, rp: nat, s: nat): set<Arc> { CopiedIns(A, rp, s) - InArcs(A, rp) }

  /** Giving the fragment a new left end. */
  lemma NewLeftEnd(A: set<Arc>, I: set<nat>, lp: nat, rp: nat, s: nat)
    requires Fragment(A, lp, rp, I) && Untouched(A, s) && s != lp && s != rp && s !in I
    ensures var B := MovedOuts(A, lp, s);
            && Fragment(B, s, rp, I) && Lang(B, I, s, rp) == Lang(A, I, lp, rp)
            && OutArcs(B, lp) == {} && InArcs(B, s) == {} && Outside(B, s, I) == Outside(A, lp, I)
  {
    var B := MovedOuts(A, lp, s);
    forall a | a in A && (a.from == lp || a.from in I) ensures Strung(a, Itself(I), lp, rp, s, rp) in B {
      if a.from == lp { assert a in OutArcs(A, lp) && a.(from := s) in B; }
    }
    forall b | b in B && (b.from == s || b.from in I)
      ensures exists a :: a in A && (a.from == lp || a.from in I) && b == Strung(a, Itself(I), lp, rp, s, rp)
    {
      var a := if b.from == s then b.(from := lp) else b;
      assert a in A && b == Strung(a, Itself(I), lp, rp, s, rp);
    }
    MovedSpeaksAlike(A, I, lp, rp, B, s, rp);
    assert forall a :: a in A && a.from == lp ==> a in OutArcs(A, lp);
    assert forall b :: b in B ==> b.from != lp && b.to != s;
    assert OutArcs(B, lp) == {} && InArcs(B, s) == {};
    forall a: Arc ensures a in Outside(B, s, I) <==> a in Outside(A, lp, I) {
      assert a in A && a.from != lp ==> a in B;
    }
  }

  // ----- {0,}

  function Starred(A: set<Arc>, lp: nat, rp: nat, s: nat): set<Arc> {
    MovedIns(MovedOuts(A, lp, s), rp, s) + {EmptyArc(lp, s), EmptyArc(s, rp)}
  }

  /** The arcs of the fragment after both its ends have been moved. */
  lemma BothMoved(A: set<Arc>, I: set<nat>, lp: nat, rp: nat, s: nat, t: nat, B: set<Arc>)
    requires Fragment(A, lp, rp, I) && Untouched(A, s) && Untouched(A, t) && s !in I + {lp, rp} && t !in I + {lp, rp}
    requires B == MovedIns(MovedOuts(A, lp, s), rp, t)
    ensures Moved(A, I, lp, rp, B, s, t)
    ensures forall b :: b in B ==> b.from != lp && b.to != rp && (b.from == s || b.from in I <==> b.to == t || b.to in I)
    ensures Outside(A, lp, I) == set b | b in B && b.from != s && b.from !in I
  {
    var C := MovedOuts(A, lp, s);
    assert forall a :: a in A && a.from == lp ==> a in OutArcs(A, lp);
    assert forall c :: c in C && c.to == rp ==> c in InArcs(C, rp);
    forall a | a in A && (a.from == lp || a.from in I) ensures Strung(a, Itself(I), lp, rp, s, t) in B {
      var c := if a.from == lp then a.(from := s) else a;
      assert c in C;
      assert c.to == rp ==> c.(to := t) in B;
    }
    forall b | b in B && (b.from == s || b.from in I)
      ensures exists a :: a in A && (a.from == lp || a.from in I) && b == Strung(a, Itself(I), lp, rp, s, t)
    {
      var c := if b.to == t then b.(to := rp) else b;
      assert c in C;
      var a := if c.from == s then c.(from := lp) else c;
      assert a in A && b == Strung(a, Itself(I), lp, rp, s, t);
    }
    forall b | b in B ensures b.from == s || b.from in I <==> b.to == t || b.to in I {
      var c := if b.to == t then b.(to := rp) else b;
      assert c in C;
      var a := if c.from == s then c.(from := lp) else c;
      assert a in A;
    }
  }

  lemma StarCase(A: set<Arc>, I: set<nat>, lp: nat, rp: nat, s: nat)
    requires Fragment(A, lp, rp, I) && Untouched(A, s) && s !in I + {lp, rp}
    ensures var B := Starred(A, lp, rp, s);
            && Fragment(B, lp, rp, I + {s}) && Outside(B, lp, I + {s}) == Outside(A, lp, I)
            && Lang(B, I + {s}, lp, rp) == Reps(Lang(A, I, lp, rp), 0, INFINITY)
  {
    var C, B := MovedIns(MovedOuts(A, lp, s), rp, s), Starred(A, lp, rp, s);
    BothMoved(A, I, lp, rp, s, s, C);
    MovedSpeaksAlike(A, I, lp, rp, B, s, s);
    StarWords(B, I, lp, s, rp);
  }

  lemma StarReached(A: set<Arc>, I: set<nat>, lp: nat, rp: nat, s: nat)
    requires Fragment(A, lp, rp, I) && Untouched(A, s) && s !in I + {lp, rp} && AllReached(A, lp, rp, I)
    ensures AllReached(Starred(A, lp, rp, s), lp, rp, I + {s})
  {
    var C, B := MovedIns(MovedOuts(A, lp, s), rp, s), Starred(A, lp, rp, s);
    BothMoved(A, I, lp, rp, s, s, C);
    var W := Within(B, lp, I + {s});
    MovedRehung(A, I, lp, rp, C, s, s);
    JoinedBy(W, EmptyArc(lp, s));
    JoinedBy(W, EmptyArc(s, rp));
    JoinedVia(W, lp, s, rp);
    forall u | u in I ensures Joined(W, lp, u) {
      ReachedRehung(A, I, lp, rp, B, s, s, lp, I + {s}, u);
      JoinedVia(W, lp, s, u);
    }
  }

  /** Moved arcs are where the ends of the fragment now are. */
  lemma MovedRehung(A: set<Arc>, I: set<nat>, lp: nat, rp: nat, B: set<Arc>, s: nat, t: nat)
    requires Fragment(A, lp, rp, I) && Moved(A, I, lp, rp, B, s, t)
    ensures forall a :: a in Within(A, lp, I) ==>
      exists b :: b in B && b.from == Rehung(lp, rp, s, t)(a.from) && b.to == Rehung(lp, rp, s, t)(a.to)
  {
    forall a | a in Within(A, lp, I)
      ensures exists b :: b in B && b.from == Rehung(lp, rp, s, t)(a.from) && b.to == Rehung(lp, rp, s, t)(a.to)
    {
      var b := Strung(a, Itself(I), lp, rp, s, t);
      assert b in B && b.from == Rehung(lp, rp, s, t)(a.from) && b.to == Rehung(lp, rp, s, t)(a.to);
    }
  }

  // ----- {1,}

  function Plussed(A: set<Arc>, lp: nat, rp: nat, s: nat, s2: nat): set<Arc> {
    MovedIns(MovedOuts(A, lp, s), rp, s2) + {EmptyArc(lp, s), EmptyArc(s2, rp), EmptyArc(s2, s)}
  }

  lemma PlusCase(A: set<Arc>, I: set<nat>, lp: nat, rp: nat, s: nat, s2: nat)
    requires Fragment(A, lp, rp, I) && Untouched(A, s) && Untouched(A, s2) && s != s2 && s !in I + {lp, rp} && s2 !in I + {lp, rp}
    ensures var B := Plussed(A, lp, rp, s, s2);
            && Fragment(B, lp, rp, I + {s, s2}) && Outside(B, lp, I + {s, s2}) == Outside(A, lp, I)
            && Lang(B, I + {s, s2}, lp, rp) == Reps(Lang(A, I, lp, rp), 1, INFINITY)
  {
    var C, B := MovedIns(MovedOuts(A, lp, s), rp, s2), Plussed(A, lp, rp, s, s2);
    BothMoved(A, I, lp, rp, s, s2, C);
    MovedSpeaksAlike(A, I, lp, rp, B, s, s2);
    PlusWords(B, I, lp, s, s2, rp);
  }

  lemma PlusReached(A: set<Arc>, I: set<nat>, lp: nat, rp: nat, s: nat, s2: nat)
    requires Fragment(A, lp, rp, I) && Untouched(A, s) && Untouched(A, s2) && s != s2 && s !in I + {lp, rp} && s2 !in I + {lp, rp}
    requires AllReached(A, lp, rp, I)
    ensures AllReached(Plussed(A, lp, rp, s, s2), lp, rp, I + {s, s2})
  {
    var C, B := MovedIns(MovedOuts(A, lp, s), rp, s2), Plussed(A, lp, rp, s, s2);
    BothMoved(A, I, lp, rp, s, s2, C);
    var J := I + {s, s2};
    var W := Within(B, lp, J);
    MovedRehung(A, I, lp, rp, C, s, s2);
    JoinedBy(W, EmptyArc(lp, s));
    forall u | u in I || u == rp ensures Joined(W, lp, Rehung(lp, rp, s, s2)(u)) {
      ReachedRehung(A, I, lp, rp, B, s, s2, lp, J, u);
      JoinedVia(W, lp, s, Rehung(lp, rp, s, s2)(u));
    }
    assert Joined(W, lp, Rehung(lp, rp, s, s2)(rp));
    assert forall u :: u in I ==> Rehung(lp, rp, s, s2)(u) == u;
    JoinedBy(W, EmptyArc(s2, rp));
    JoinedVia(W, lp, s2, rp);
    forall u | u in J || u == rp ensures Joined(W, lp, u) {
      if u in I { assert Joined(W, lp, Rehung(lp, rp, s, s2)(u)); }
    }
  }

  // ----- a duplicate in front of the fragment

  /** `A` has a fragment from `lp` to `s` and one from `s` to `rp`, both with the words `X`. */
  ghost predicate Twice(A: set<Arc>, X: Language, lp: nat, J: set<nat>, s: nat, I: set<nat>, rp: nat) {
    && Fragment(A, lp, s, J) && Fragment(A, s, rp, I) && J !! I && lp !in I && lp != rp && rp !in J
    && Lang(A, J, lp, s) == X && Lang(A, I, s, rp) == X
  }

  /** All arcs join states below `base`. */
  ghost predicate Below(A: set<Arc>, base: nat) { forall a :: a in A ==> a.from < base && a.to < base }

  lemma DuplicateInFront(B: set<Arc>, X: Language, lp: nat, s: nat, I: set<nat>, rp: nat,
                         R: set<nat>, no: map<nat, nat>, J: set<nat>, base: nat, hi: nat, G: set<Arc>)
    requires Fragment(B, s, rp, I) && Lang(B, I, s, rp) == X && OutArcs(B, lp) == {} && InArcs(B, s) == {}
    requires Below(B, base) && lp < base && s < base && rp < base && lp != s && lp != rp && lp !in I && forall u :: u in I ==> u < base
    requires Duplicated(B, I, s, rp, B, lp, s, R, no, J, base, hi, G)
    ensures Twice(G, X, lp, J, s, I, rp) && Outside(G, lp, J) == B
  {
    assert forall b :: b in B && b.from == lp ==> b in OutArcs(B, lp);
    assert forall b :: b in B && b.to == s ==> b in InArcs(B, s);
    var copies := set a | a in B && a.from in R :: Strung(a, no, s, rp, lp, s);
    forall b | b in copies ensures (b.from == lp || b.from in J) && (b.to == s || b.to in J) {
      var a :| a in B && a.from in R && b == Strung(a, no, s, rp, lp, s);
    }
    assert forall u :: u in J ==> base <= u;
    DuplicateSpeaksAlike(B, I, s, rp, B, lp, s, R, no, J, base, hi, G);
    LangSame(B, G, I, s, rp);
  }

  lemma NewEndReached(A: set<Arc>, I: set<nat>, lp: nat, rp: nat, s: nat)
    requires Fragment(A, lp, rp, I) && Untouched(A, s) && s != lp && s != rp && s !in I && AllReached(A, lp, rp, I)
    ensures AllReached(MovedOuts(A, lp, s), s, rp, I)
  {
    var B, f := MovedOuts(A, lp, s), Rehung(lp, rp, s, rp);
    forall a | a in Within(A, lp, I) ensures exists b :: b in B && b.from == f(a.from) && b.to == f(a.to) {
      if a.from == lp { assert a in OutArcs(A, lp) && a.(from := s) in B; }
      var b := if a.from == lp then a.(from := s) else a;
      assert b in B && b.from == f(a.from) && b.to == f(a.to);
    }
    forall u | u in I || u == rp ensures Joined(Within(B, s, I), s, u) {
      ReachedRehung(A, I, lp, rp, B, s, rp, s, I, u);
    }
  }

  /** After the front fragment has been worked on, the two are in a row. */
  lemma Rejoin(A: set<Arc>, B: set<Arc>, X: Language, lp: nat, J: set<nat>, J': set<nat>, s: nat, I: set<nat>, rp: nat)
    requires Twice(A, X, lp, J, s, I, rp) && Fragment(B, lp, s, J') && Outside(B, lp, J') == Outside(A, lp, J)
    requires J' !! I && rp !in J'
    ensures Fragment(B, lp, rp, J' + {s} + I) && Outside(B, lp, J' + {s} + I) == Outside(A, lp, J + {s} + I)
    ensures Lang(B, J' + {s} + I, lp, rp) == Cat(Lang(B, J', lp, s), X)
  {
    assert forall b: Arc :: b.from != lp && b.from !in J' ==> (b in B <==> b in Outside(B, lp, J'));
    assert forall a: Arc :: a.from != lp && a.from !in J ==> (a in A <==> a in Outside(A, lp, J));
    forall b | b in B ensures b.from == s || b.from in I <==> b.to == rp || b.to in I {
      if b.from != lp && b.from !in J' { assert b in Outside(A, lp, J); }
    }
    assert Fragment(B, s, rp, I);
    forall a: Arc | a.from == s || a.from in I ensures a in A <==> a in B {
      assert a in Outside(B, lp, J') <==> a in Outside(A, lp, J);
    }
    LangSame(A, B, I, s, rp);
    InARow(B, J', I, lp, s, rp);
    assert Outside(B, lp, J' + {s} + I) == set b | b in Outside(B, lp, J') && b.from != s && b.from !in I;
    assert Outside(A, lp, J + {s} + I) == set b | b in Outside(A, lp, J) && b.from != s && b.from !in I;
  }

  lemma RejoinReached(A: set<Arc>, B: set<Arc>, lp: nat, J: set<nat>, J': set<nat>, s: nat, I: set<nat>, rp: nat)
    requires Outside(B, lp, J') == Outside(A, lp, J) && lp !in I && lp != s && (J + {s}) !! I && s !in J
    requires AllReached(B, lp, s, J') && AllReached(A, s, rp, I)
    requires J' !! I && s !in J'
    ensures AllReached(B, lp, rp, J' + {s} + I)
  {
    forall a | a in Within(A, s, I) ensures a in Within(B, s, I) { assert a in Outside(A, lp, J); }
    SameReached(A, B, s, rp, I);
    ReachedInARow(B, J', I, lp, s, rp);
  }

  // ----- where arcs other than PLAIN ones have no cycle

  /** The fragment of `A` and what has become of it in `B`: as supple as before, with a way through
      that there was or `more`; `only` if there was none. */
  ghost predicate StaysSupple(A: set<Arc>, I: set<nat>, lp: nat, rp: nat, B: set<Arc>, J: set<nat>, only: bool, more: bool) {
    forall way: bool :: Supple(Within(A, lp, I), lp, rp, way) && (way ==> !only) ==> Supple(Within(B, lp, J), lp, rp, way || more)
  }

  lemma StaysSuppleItself(A: set<Arc>, I: set<nat>, lp: nat, rp: nat, only: bool, more: bool)
    ensures StaysSupple(A, I, lp, rp, A, I, only, more)
  {
    forall way: bool | Supple(Within(A, lp, I), lp, rp, way) ensures Supple(Within(A, lp, I), lp, rp, way || more) {
      SuppleMore(Within(A, lp, I), lp, rp, way, way || more);
    }
  }

  lemma StaysSuppleAround(A: set<Arc>, I: set<nat>, lp: nat, rp: nat)
    ensures StaysSupple(A, I, lp, rp, A + {EmptyArc(lp, rp)}, I, false, true)
  {
    var B := A + {EmptyArc(lp, rp)};
    forall way: bool | Supple(Within(A, lp, I), lp, rp, way) ensures Supple(Within(B, lp, I), lp, rp, true) {
      assert Within(B, lp, I) <= Within(A, lp, I) + {EmptyArc(lp, rp)};
      SuppleAround(Within(A, lp, I), Within(B, lp, I), lp, rp, way);
    }
  }

  lemma StaysSuppleThen(A: set<Arc>, I: set<nat>, lp: nat, rp: nat, B: set<Arc>, J: set<nat>, C: set<Arc>, K: set<nat>, only: bool, more: bool, more': bool)
    requires StaysSupple(A, I, lp, rp, B, J, only, more) && StaysSupple(B, J, lp, rp, C, K, false, more')
    ensures StaysSupple(A, I, lp, rp, C, K, only, more || more')
  {
    forall way: bool | Supple(Within(A, lp, I), lp, rp, way) && (way ==> !only) ensures Supple(Within(C, lp, K), lp, rp, way || more || more') {
      assert Supple(Within(B, lp, J), lp, rp, way || more);
    }
  }

  lemma SuppleNone(A: set<Arc>, I: set<nat>, lp: nat, rp: nat, C: set<Arc>, only: bool)
    requires lp != rp && forall c :: c in C && c.from == lp ==> c == EmptyArc(lp, rp)
    ensures StaysSupple(A, I, lp, rp, C, {}, only, true)
  {
    SuppleLabels(Within(C, lp, {}), lp, rp, true);
  }

  /** Arcs of a fragment both of whose ends have been moved. */
  lemma MovedHangs(A: set<Arc>, I: set<nat>, lp: nat, rp: nat, B: set<Arc>, s: nat, t: nat, c: Arc)
    requires Fragment(A, lp, rp, I) && Moved(A, I, lp, rp, B, s, t) && c in B && (c.from == s || c.from in I) && (c.to == t || c.to in I)
    ensures Hangs(Within(A, lp, I), c, lp, rp, s, t)
  {
    var a :| a in A && (a.from == lp || a.from in I) && c == Strung(a, Itself(I), lp, rp, s, t);
    assert a in Within(A, lp, I) && a.from != rp && a.to != lp;
    assert c == a.(from := if a.from == lp then s else a.from, to := if a.to == rp then t else a.to);
  }

  lemma SuppleStarred(A: set<Arc>, I: set<nat>, lp: nat, rp: nat, s: nat)
    requires Fragment(A, lp, rp, I) && Untouched(A, s) && s !in I + {lp, rp}
    ensures StaysSupple(A, I, lp, rp, Starred(A, lp, rp, s), I + {s}, true, true)
  {
    var C, B := MovedIns(MovedOuts(A, lp, s), rp, s), Starred(A, lp, rp, s);
    BothMoved(A, I, lp, rp, s, s, C);
    var W := Within(B, lp, I + {s});
    forall c | c in W ensures c in {EmptyArc(lp, s), EmptyArc(s, rp)} || Hangs(Within(A, lp, I), c, lp, rp, s, s) {
      if c in C { MovedHangs(A, I, lp, rp, C, s, s, c); }
    }
    if Supple(Within(A, lp, I), lp, rp, false) { SuppleStar(Within(A, lp, I), W, I, lp, rp, s); }
  }

  lemma SupplePlussed(A: set<Arc>, I: set<nat>, lp: nat, rp: nat, s: nat, s2: nat)
    requires Fragment(A, lp, rp, I) && Untouched(A, s) && Untouched(A, s2) && s != s2 && s !in I + {lp, rp} && s2 !in I + {lp, rp}
    ensures StaysSupple(A, I, lp, rp, Plussed(A, lp, rp, s, s2), I + {s, s2}, true, false)
  {
    var C, B := MovedIns(MovedOuts(A, lp, s), rp, s2), Plussed(A, lp, rp, s, s2);
    BothMoved(A, I, lp, rp, s, s2, C);
    var W := Within(B, lp, I + {s, s2});
    forall c | c in W ensures c in {EmptyArc(lp, s), EmptyArc(s2, rp), EmptyArc(s2, s)} || Hangs(Within(A, lp, I), c, lp, rp, s, s2) {
      if c in C { PlusArc(A, I, lp, rp, s, s2, C, c); }
    }
    if Supple(Within(A, lp, I), lp, rp, false) { SupplePlus(Within(A, lp, I), W, I, lp, rp, s, s2); }
  }

  lemma PlusArc(A: set<Arc>, I: set<nat>, lp: nat, rp: nat, s: nat, s2: nat, C: set<Arc>, c: Arc)
    requires Fragment(A, lp, rp, I) && Untouched(A, s) && Untouched(A, s2) && s != s2 && s !in I + {lp, rp} && s2 !in I + {lp, rp}
    requires C == MovedIns(MovedOuts(A, lp, s), rp, s2) && c in C && (c.from == lp || c.from in I + {s, s2})
    ensures Hangs(Within(A, lp, I), c, lp, rp, s, s2)
  {
    BothMoved(A, I, lp, rp, s, s2, C);
    assert forall a :: a in A ==> a.from != s2;
    MovedHangs(A, I, lp, rp, C, s, s2, c);
  }

  /** Both the fragment and a duplicate in front of it are as supple as it was. */
  ghost predicate SuppleTwice(A: set<Arc>, I: set<nat>, lp: nat, rp: nat, G: set<Arc>, J: set<nat>, s: nat) {
    forall way: bool :: Supple(Within(A, lp, I), lp, rp, way) ==> Supple(Within(G, lp, J), lp, s, way) && Supple(Within(G, s, I), s, rp, way)
  }

  lemma SuppleNewEnd(A: set<Arc>, I: set<nat>, lp: nat, rp: nat, s: nat, way: bool)
    requires Fragment(A, lp, rp, I) && Untouched(A, s) && s != lp && s != rp && s !in I && Supple(Within(A, lp, I), lp, rp, way)
    ensures Supple(Within(MovedOuts(A, lp, s), s, I), s, rp, way)
  {
    var B, f := Within(MovedOuts(A, lp, s), s, I), (u: nat) => if u == s then lp else u;
    forall b | b in B ensures Arc(b.kind, b.co, f(b.from), f(b.to)) in Within(A, lp, I) {
      var a := if b.from == s then b.(from := lp) else b;
      assert a in A;
      assert Arc(b.kind, b.co, f(b.from), f(b.to)) == a;
    }
    SuppleImage(Within(A, lp, I), B, f, lp, rp, s, rp, way);
  }

  lemma SuppleDuplicate(B: set<Arc>, lp: nat, s: nat, I: set<nat>, rp: nat, R: set<nat>, no: map<nat, nat>, J: set<nat>, base: nat, hi: nat, G: set<Arc>, way: bool)
    requires Fragment(B, s, rp, I) && OutArcs(B, lp) == {} && Below(B, base) && lp < base && s < base && lp != s && lp !in I && forall u :: u in I ==> u < base
    requires Duplicated(B, I, s, rp, B, lp, s, R, no, J, base, hi, G) && Supple(Within(B, s, I), s, rp, way)
    ensures Supple(Within(G, lp, J), lp, s, way) && Supple(Within(G, s, I), s, rp, way)
  {
    var F, C := Within(B, s, I), Within(G, lp, J);
    assert forall b :: b in B && b.from == lp ==> b in OutArcs(B, lp);
    forall c | c in C ensures exists a :: a in F && a.from in R && c == Strung(a, no, s, rp, lp, s) {
      assert c !in B;
      var a :| a in B && a.from in R && c == Strung(a, no, s, rp, lp, s);
      assert a in F;
    }
    CopiesAreImages(F, C, R, no, s, rp, lp, s);
    SuppleImage(F, C, Originals(no, s, rp, lp, s), s, rp, lp, s, way);
    forall c | c in G && c !in B ensures c.from == lp || c.from in J {
      var a :| a in B && a.from in R && c == Strung(a, no, s, rp, lp, s);
    }
    assert Within(G, s, I) <= F;
    SuppleFewer(F, Within(G, s, I), s, rp, way);
  }

  lemma SuppleFront(A: set<Arc>, I: set<nat>, lp: nat, rp: nat, s: nat, B: set<Arc>, R: set<nat>, no: map<nat, nat>, J: set<nat>, base: nat, hi: nat, G: set<Arc>)
    requires Fragment(A, lp, rp, I) && Untouched(A, s) && s != lp && s != rp && s !in I && B == MovedOuts(A, lp, s)
    requires Below(B, base) && lp < base && s < base && forall u :: u in I ==> u < base
    requires Duplicated(B, I, s, rp, B, lp, s, R, no, J, base, hi, G)
    ensures SuppleTwice(A, I, lp, rp, G, J, s)
  {
    NewLeftEnd(A, I, lp, rp, s);
    forall way: bool | Supple(Within(A, lp, I), lp, rp, way) ensures Supple(Within(G, lp, J), lp, s, way) && Supple(Within(G, s, I), s, rp, way) {
      SuppleNewEnd(A, I, lp, rp, s, way);
      SuppleDuplicate(B, lp, s, I, rp, R, no, J, base, hi, G, way);
    }
  }

  /** The front fragment has been worked on: what is in a row is as supple as the fragment behind. */
  lemma SuppleRejoined(A0: set<Arc>, I: set<nat>, lp: nat, rp: nat, A: set<Arc>, J: set<nat>, s: nat, B: set<Arc>, J': set<nat>, only: bool, more: bool)
    requires SuppleTwice(A0, I, lp, rp, A, J, s) && StaysSupple(A, J, lp, s, B, J', only, more)
    requires Fragment(B, lp, s, J') && Fragment(A, s, rp, I) && Outside(B, lp, J') == Outside(A, lp, J)
    requires J' !! I && rp !in J' && lp !in I && lp != rp
    ensures StaysSupple(A0, I, lp, rp, B, J' + {s} + I, only, false)
  {
    var W := Within(B, lp, J' + {s} + I);
    forall way: bool | Supple(Within(A0, lp, I), lp, rp, way) && (way ==> !only) ensures Supple(W, lp, rp, way) {
      forall b | b in Within(B, s, I) ensures b in Within(A, s, I) { assert b in Outside(B, lp, J'); }
      SuppleFewer(Within(A, s, I), Within(B, s, I), s, rp, way);
      SuppleInARow(Within(B, lp, J'), Within(B, s, I), W, J' + {lp, s}, I + {s, rp}, lp, s, rp, way || more, way);
      SuppleMore(W, lp, rp, (way || more) && way, way);
    }
  }

  // ----- the method

  /** Every inner state can be reached. */
  ghost predicate Reached(A: set<Arc>, lp: nat, I: set<nat>) {
    forall u :: u in I ==> Joined(A - Outside(A, lp, I), lp, u)
  }

  /** What a repetition achieves: a fragment with the words asked for in place of the one
      there was, the other arcs as they were, and inner states of old or new. */
  ghost predicate Repeated(A: set<Arc>, S: set<nat>, I: set<nat>, lp: nat, rp: nat, m: int, n: int, B: set<Arc>, S': set<nat>, I': set<nat>) {
    && Fragment(B, lp, rp, I') && Lang(B, I', lp, rp) == Reps(Lang(A, I, lp, rp), m, n)
    && Outside(B, lp, I') == Outside(A, lp, I)
    && I' <= S' && I' * S <= I && S - I <= S'
  }

  lemma ReachedAll(A: set<Arc>, lp: nat, rp: nat, I: set<nat>)
    requires AllReached(A, lp, rp, I)
    ensures Reached(A, lp, I)
  {
    assert A - Outside(A, lp, I) == Within(A, lp, I);
  }

  lemma SameReached(A: set<Arc>, B: set<Arc>, lp: nat, rp: nat, I: set<nat>)
    requires AllReached(A, lp, rp, I) && Within(A, lp, I) <= Within(B, lp, I)
    ensures AllReached(B, lp, rp, I)
  {
    forall u | u in I || u == rp ensures Joined(Within(B, lp, I), lp, u) { WithinMore(A, B, lp, I, lp, I, u); }
  }

  /** No labels come in but EMPTY. */
  ghost predicate NoNewLabels(A: set<Arc>, B: set<Arc>) { forall b :: b in B ==> (b.kind == Empty && b.co == 0) || (b.kind, b.co) in Labels(A) }

  lemma NoNewLabelsTransitive(A: set<Arc>, B: set<Arc>, C: set<Arc>)
    requires NoNewLabels(A, B) && NoNewLabels(B, C)
    ensures NoNewLabels(A, C)
  {
    forall c | c in C && !(c.kind == Empty && c.co == 0) ensures (c.kind, c.co) in Labels(A) {
      var b :| b in B && b.kind == c.kind && b.co == c.co;
    }
  }

  lemma MovedLabels(A: set<Arc>, lp: nat, rp: nat, s: nat, t: nat, more: set<Arc>)
    requires forall e :: e in more ==> e.kind == Empty && e.co == 0
    ensures NoNewLabels(A, MovedIns(MovedOuts(A, lp, s), rp, t) + more) && NoNewLabels(A, MovedOuts(A, lp, s)) && NoNewLabels(A, MovedIns(A, rp, t))
  {
    forall a | a in A ensures (a.kind, a.co) in Labels(A) {
    }
  }

  lemma DuplicatedLabels(A: set<Arc>, I: set<nat>, start: nat, stop: nat, from: nat, to: nat,
                         R: set<nat>, no: map<nat, nat>, J: set<nat>, base: nat, hi: nat, G: set<Arc>)
    requires Duplicated(A, I, start, stop, A, from, to, R, no, J, base, hi, G)
    ensures NoNewLabels(A, G)
  {
    forall b | b in G ensures (b.kind, b.co) in Labels(A) {
      if b !in A {
        var a :| a in A && a.from in R && b == Strung(a, no, start, stop, from, to);
      }
    }
  }

  /** The state of affairs that `repeat` expects. */
  ghost predicate Ready(nfa: Nfa, lp: nat, rp: nat, I: set<nat>)
    reads nfa
  {
    && nfa.Valid() && nfa.Clean() && Fragment(nfa.arcs, lp, rp, I)
    && I + {lp, rp} <= Members(nfa.states) && nfa.pre !in I && nfa.post !in I
  }

  /** Put a duplicate of the fragment in front of it. */
  method DupInFront(nfa: Nfa, lp: nat, rp: nat, ghost I: set<nat>) returns (s: nat, ghost J: set<nat>)
    requires Ready(nfa, lp, rp, I)
    modifies nfa`arcs, nfa`states, nfa`fresh_, nfa`no, nfa`nstates, nfa`tmp
    ensures Ready(nfa, lp, s, J) && Ready(nfa, s, rp, I)
    ensures Twice(nfa.arcs, Lang(old(nfa.arcs), I, lp, rp), lp, J, s, I, rp)
    ensures Outside(nfa.arcs, lp, J + {s} + I) == Outside(old(nfa.arcs), lp, I)
    ensures Members(old(nfa.states)) <= Members(nfa.states) && (J + {s}) !! Members(old(nfa.states))
    ensures old(AllReached(nfa.arcs, lp, rp, I)) ==> AllReached(nfa.arcs, lp, s, J) && AllReached(nfa.arcs, s, rp, I)
    ensures NoNewLabels(old(nfa.arcs), nfa.arcs) && SuppleTwice(old(nfa.arcs), I, lp, rp, nfa.arcs, J, s)
  {
    ghost var A, X := nfa.arcs, Lang(nfa.arcs, I, lp, rp);
    ghost var S := Members(nfa.states);
    assert lp in S && rp in S;
    s := nfa.NewState();
    NewLeftEnd(A, I, lp, rp, s);
    nfa.MoveOuts(lp, s);
    ghost var B, base := nfa.arcs, nfa.fresh_;
    assert forall u :: u in I ==> u in Members(nfa.states);
    ghost var R, no;
    R, no, J := DupNfa(nfa, nfa, s, rp, lp, s, I);
    DuplicateInFront(B, X, lp, s, I, rp, R, no, J, base, nfa.fresh_, nfa.arcs);
    assert Outside(nfa.arcs, lp, J + {s} + I) == Outside(B, s, I);
    DupReachedToo(A, I, lp, rp, s, B, R, no, J, base, nfa.fresh_, nfa.arcs);
    SuppleFront(A, I, lp, rp, s, B, R, no, J, base, nfa.fresh_, nfa.arcs);
    MovedLabels(A, lp, rp, s, rp, {});
    DuplicatedLabels(B, I, s, rp, lp, s, R, no, J, base, nfa.fresh_, nfa.arcs);
    NoNewLabelsTransitive(A, B, nfa.arcs);
  }

  lemma DupReachedToo(A: set<Arc>, I: set<nat>, lp: nat, rp: nat, s: nat, B: set<Arc>,
                      R: set<nat>, no: map<nat, nat>, J: set<nat>, base: nat, hi: nat, G: set<Arc>)
    requires Fragment(A, lp, rp, I) && Untouched(A, s) && s != lp && s != rp && s !in I && B == MovedOuts(A, lp, s)
    requires Duplicated(B, I, s, rp, B, lp, s, R, no, J, base, hi, G)
    ensures AllReached(A, lp, rp, I) ==> AllReached(G, lp, s, J) && AllReached(G, s, rp, I)
  {
    if AllReached(A, lp, rp, I) {
      NewLeftEnd(A, I, lp, rp, s);
      NewEndReached(A, I, lp, rp, s);
      ReachedDuplicate(B, I, s, rp, B, lp, s, R, no, J, base, hi, G);
      SameReached(B, G, s, rp, I);
    }
  }

  method EmptyAround(nfa: Nfa, lp: nat, rp: nat, ghost I: set<nat>)
    requires Ready(nfa, lp, rp, I)
    modifies nfa`arcs
    ensures Ready(nfa, lp, rp, I) && Lang(nfa.arcs, I, lp, rp) == Lang(old(nfa.arcs), I, lp, rp) + JustEmpty()
    ensures Outside(nfa.arcs, lp, I) == Outside(old(nfa.arcs), lp, I)
    ensures old(AllReached(nfa.arcs, lp, rp, I)) ==> AllReached(nfa.arcs, lp, rp, I)
    ensures NoNewLabels(old(nfa.arcs), nfa.arcs) && StaysSupple(old(nfa.arcs), I, lp, rp, nfa.arcs, I, false, true)
  {
    ghost var A := nfa.arcs;
    Bypass(nfa.arcs, I, lp, rp);
    StaysSuppleAround(A, I, lp, rp);
    assert lp in Members(nfa.states) && rp in Members(nfa.states);
    nfa.NewArc(Empty, 0, lp, rp);
    if AllReached(A, lp, rp, I) { SameReached(A, nfa.arcs, lp, rp, I); }
  }

  /** {0,0}: the empty string. */
  method RepeatNone(nfa: Nfa, lp: nat, rp: nat, ghost I: set<nat>)
    requires Ready(nfa, lp, rp, I) && Reached(nfa.arcs, lp, I)
    modifies nfa`arcs, nfa`states, nfa`tmp, nfa`no
    ensures Ready(nfa, lp, rp, {})
    ensures Repeated(old(nfa.arcs), Members(old(nfa.states)), I, lp, rp, 0, 0, nfa.arcs, Members(nfa.states), {})
    ensures AllReached(nfa.arcs, lp, rp, {})
    ensures NoNewLabels(old(nfa.arcs), nfa.arcs) && StaysSupple(old(nfa.arcs), I, lp, rp, nfa.arcs, {}, false, true)
  {
    ghost var A := nfa.arcs;
    DelSub(nfa, lp, rp, I);
    ghost var B := nfa.arcs;
    assert lp in Members(nfa.states) && rp in Members(nfa.states);
    nfa.NewArc(Empty, 0, lp, rp);
    NoneCase(A, B, I, lp, rp);
    SuppleNone(A, I, lp, rp, nfa.arcs, false);
    JoinedBy(Within(nfa.arcs, lp, {}), EmptyArc(lp, rp));
  }

  lemma NoneCase(A: set<Arc>, B: set<Arc>, I: set<nat>, lp: nat, rp: nat)
    requires Fragment(A, lp, rp, I) && B == Outside(A, lp, I)
    ensures var C := B + {EmptyArc(lp, rp)};
            Fragment(C, lp, rp, {}) && Lang(C, {}, lp, rp) == Reps(Lang(A, I, lp, rp), 0, 0) && Outside(C, lp, {}) == Outside(A, lp, I)
  {
    var C := B + {EmptyArc(lp, rp)};
    forall l: seq<Label> ensures l in Lang(C, {}, lp, rp) <==> l in JustEmpty() {
      if n: nat :| Through(C, {}, lp, rp, l, n) {
        var a := FirstArc(C, {}, lp, rp, l, n);
      }
      OneArc(C, {}, EmptyArc(lp, rp));
      InLang(C, {}, lp, rp, [], 1);
    }
    Same(Lang(C, {}, lp, rp), JustEmpty());
    RepsSmall(Lang(A, I, lp, rp));
  }

  /** Move the ends of the fragment. */
  method MoveEnds(nfa: Nfa, lp: nat, rp: nat, s: nat, t: nat)
    requires nfa.Valid() && s in nfa.states && t in nfa.states && s != lp && t != rp
    modifies nfa`arcs
    ensures nfa.Valid() && nfa.arcs == MovedIns(MovedOuts(old(nfa.arcs), lp, s), rp, t)
  {
    nfa.MoveOuts(lp, s);
    nfa.MoveIns(rp, t);
  }

  /** {0,}: loop around. */
  method RepeatStar(nfa: Nfa, lp: nat, rp: nat, ghost I: set<nat>) returns (ghost I': set<nat>)
    requires Ready(nfa, lp, rp, I)
    modifies nfa`arcs, nfa`states, nfa`fresh_, nfa`no, nfa`nstates
    ensures Ready(nfa, lp, rp, I')
    ensures Repeated(old(nfa.arcs), Members(old(nfa.states)), I, lp, rp, 0, INFINITY, nfa.arcs, Members(nfa.states), I')
    ensures old(AllReached(nfa.arcs, lp, rp, I)) ==> AllReached(nfa.arcs, lp, rp, I')
    ensures NoNewLabels(old(nfa.arcs), nfa.arcs) && StaysSupple(old(nfa.arcs), I, lp, rp, nfa.arcs, I', true, true)
  {
    ghost var A, S := nfa.arcs, Members(nfa.states);
    assert lp in S && rp in S;
    var s := nfa.NewState();
    StarCase(A, I, lp, rp, s);
    MoveEnds(nfa, lp, rp, s, s);
    HangStar(nfa, lp, rp, s);
    assert nfa.arcs == Starred(A, lp, rp, s);
    I' := I + {s};
    StarReachedToo(A, I, lp, rp, s);
    SuppleStarred(A, I, lp, rp, s);
    MovedLabels(A, lp, rp, s, s, {EmptyArc(lp, s), EmptyArc(s, rp)});
  }

  method HangStar(nfa: Nfa, lp: nat, rp: nat, s: nat)
    requires nfa.Valid() && lp in nfa.states && rp in nfa.states && s in nfa.states
    modifies nfa`arcs
    ensures nfa.Valid() && nfa.arcs == old(nfa.arcs) + {EmptyArc(lp, s), EmptyArc(s, rp)}
  {
    nfa.NewArc(Empty, 0, lp, s);
    nfa.NewArc(Empty, 0, s, rp);
  }

  lemma StarReachedToo(A: set<Arc>, I: set<nat>, lp: nat, rp: nat, s: nat)
    requires Fragment(A, lp, rp, I) && Untouched(A, s) && s !in I + {lp, rp}
    ensures AllReached(A, lp, rp, I) ==> AllReached(Starred(A, lp, rp, s), lp, rp, I + {s})
  {
    if AllReached(A, lp, rp, I) { StarReached(A, I, lp, rp, s); }
  }

  lemma PlusReachedToo(A: set<Arc>, I: set<nat>, lp: nat, rp: nat, s: nat, s2: nat)
    requires Fragment(A, lp, rp, I) && Untouched(A, s) && Untouched(A, s2) && s != s2 && s !in I + {lp, rp} && s2 !in I + {lp, rp}
    ensures AllReached(A, lp, rp, I) ==> AllReached(Plussed(A, lp, rp, s, s2), lp, rp, I + {s, s2})
  {
    if AllReached(A, lp, rp, I) { PlusReached(A, I, lp, rp, s, s2); }
  }

  /** Hang a fragment whose ends were moved back in, with a loopback arc. */
  method LoopBack(nfa: Nfa, lp: nat, rp: nat, s: nat, s2: nat)
    requires nfa.Valid() && lp in nfa.states && rp in nfa.states && s in nfa.states && s2 in nfa.states
    modifies nfa`arcs
    ensures nfa.Valid() && nfa.arcs == old(nfa.arcs) + {EmptyArc(lp, s), EmptyArc(s2, rp), EmptyArc(s2, s)}
  {
    nfa.NewArc(Empty, 0, lp, s);
    nfa.NewArc(Empty, 0, s2, rp);
    nfa.NewArc(Empty, 0, s2, s);
  }

  /** {1,}: add a loopback arc. */
  method RepeatPlus(nfa: Nfa, lp: nat, rp: nat, ghost I: set<nat>) returns (ghost I': set<nat>)
    requires Ready(nfa, lp, rp, I)
    modifies nfa`arcs, nfa`states, nfa`fresh_, nfa`no, nfa`nstates
    ensures Ready(nfa, lp, rp, I')
    ensures Repeated(old(nfa.arcs), Members(old(nfa.states)), I, lp, rp, 1, INFINITY, nfa.arcs, Members(nfa.states), I')
    ensures old(AllReached(nfa.arcs, lp, rp, I)) ==> AllReached(nfa.arcs, lp, rp, I')
    ensures NoNewLabels(old(nfa.arcs), nfa.arcs) && StaysSupple(old(nfa.arcs), I, lp, rp, nfa.arcs, I', true, false)
  {
    ghost var A, S := nfa.arcs, Members(nfa.states);
    assert lp in S && rp in S;
    var s := nfa.NewState();
    var s2 := nfa.NewState();
    PlusCase(A, I, lp, rp, s, s2);
    MoveEnds(nfa, lp, rp, s, s2);
    LoopBack(nfa, lp, rp, s, s2);
    PlusReachedToo(A, I, lp, rp, s, s2);
    SupplePlussed(A, I, lp, rp, s, s2);
    MovedLabels(A, lp, rp, s, s2, {EmptyArc(lp, s), EmptyArc(s2, rp), EmptyArc(s2, s)});
    assert nfa.arcs == Plussed(A, lp, rp, s, s2);
    I' := I + {s, s2};
  }

  /** The case distinction of `repeat`: a number is 0, 1, some or infinite. */
  datatype Times = None | Once | Some | Infinite

  function Reduce(x: int): Times {
    if x == INFINITY then Infinite else if x > 1 then Some else if x == 1 then Once else None
  }

  /** Replicate the fragment from `lp` to `rp` for a quantifier {m,n}. The new fragment's
      words are those of from `m` to `n` words of the old one in a row. Numbers out of
      order are refused. */
  method Repeat(nfa: Nfa, lp: nat, rp: nat, m: int, n: int, ghost I: set<nat>) returns (ok: bool, ghost I': set<nat>)
    requires Ready(nfa, lp, rp, I) && 0 <= m <= INFINITY && 0 <= n <= INFINITY
    requires m == n == 0 ==> Reached(nfa.arcs, lp, I)
    modifies nfa`arcs, nfa`states, nfa`fresh_, nfa`no, nfa`nstates, nfa`tmp
    ensures nfa.Valid() && nfa.Clean() && (ok <==> m <= n && m != INFINITY)
    ensures ok ==> Ready(nfa, lp, rp, I')
    ensures ok ==> Repeated(old(nfa.arcs), Members(old(nfa.states)), I, lp, rp, m, n, nfa.arcs, Members(nfa.states), I')
    ensures ok && old(AllReached(nfa.arcs, lp, rp, I)) ==> AllReached(nfa.arcs, lp, rp, I')
    ensures ok ==> NoNewLabels(old(nfa.arcs), nfa.arcs) && StaysSupple(old(nfa.arcs), I, lp, rp, nfa.arcs, I', n == INFINITY, m == 0)
    decreases n, if m == 0 then 1 else 0, m, 0
  {
    ghost var A, X := nfa.arcs, Lang(nfa.arcs, I, lp, rp);
    ok, I' := true, I;
    match (Reduce(m), Reduce(n)) {
      case (None, None) =>
        RepeatNone(nfa, lp, rp, I);
        I' := {};
      case (None, Once) =>
        EmptyAround(nfa, lp, rp, I);
        RepsSmall(X);
        RepsNone(X, 1);
      case (None, Some) =>
        ok, I' := Repeat(nfa, lp, rp, 1, n, I);
        ghost var B := nfa.arcs;
        EmptyAround(nfa, lp, rp, I');
        StaysSuppleThen(A, I, lp, rp, B, I', nfa.arcs, I', false, false, true);
        RepsNone(X, n);
      case (None, Infinite) =>
        I' := RepeatStar(nfa, lp, rp, I);
      case (Once, Once) =>
        RepsSmall(X);
        StaysSuppleItself(A, I, lp, rp, false, false);
      case (Once, Some) =>
        ok, I' := RepeatMore(nfa, lp, rp, 1, n - 1, true, I);
        RepsMore(X, 0, n);
      case (Once, Infinite) =>
        I' := RepeatPlus(nfa, lp, rp, I);
      case (Some, Some) =>
        ok, I' := RepeatMore(nfa, lp, rp, m - 1, n - 1, false, I);
        RepsMore(X, m - 1, n);
      case (Some, Infinite) =>
        ok, I' := RepeatMore(nfa, lp, rp, m - 1, n, false, I);
        RepsMore(X, m - 1, n);
      case _ =>
        ok := false;
    }
  }

  /** Repeat a duplicate, possibly with an empty arc around it, in front of the fragment. */
  method RepeatMore(nfa: Nfa, lp: nat, rp: nat, m: int, n: int, optional: bool, ghost I: set<nat>) returns (ok: bool, ghost I': set<nat>)
    requires Ready(nfa, lp, rp, I) && 1 <= m < INFINITY && 1 <= n <= INFINITY && (optional ==> m == 1)
    modifies nfa`arcs, nfa`states, nfa`fresh_, nfa`no, nfa`nstates, nfa`tmp
    ensures nfa.Valid() && nfa.Clean() && (ok <==> m <= n)
    ensures ok ==> Ready(nfa, lp, rp, I') && Fragment(nfa.arcs, lp, rp, I')
    ensures ok ==> var X := Lang(old(nfa.arcs), I, lp, rp); Lang(nfa.arcs, I', lp, rp) == Cat(Reps(X, if optional then 0 else m, n), X)
    ensures ok ==> Outside(nfa.arcs, lp, I') == Outside(old(nfa.arcs), lp, I)
    ensures ok ==> I' * Members(old(nfa.states)) <= I && Members(old(nfa.states)) - I <= Members(nfa.states)
    ensures ok && old(AllReached(nfa.arcs, lp, rp, I)) ==> AllReached(nfa.arcs, lp, rp, I')
    ensures ok ==> NoNewLabels(old(nfa.arcs), nfa.arcs) && StaysSupple(old(nfa.arcs), I, lp, rp, nfa.arcs, I', n == INFINITY, false)
    decreases n, 0, m, 1
  {
    ghost var A, X := nfa.arcs, Lang(nfa.arcs, I, lp, rp);
    var s;
    ghost var J;
    s, J := DupInFront(nfa, lp, rp, I);
    ghost var B := nfa.arcs;
    ghost var J';
    ok, J' := Repeat(nfa, lp, s, m, n, J);
    I' := J' + {s} + I;
    ghost var C := nfa.arcs;
    if optional {
      EmptyAround(nfa, lp, s, J');
      RepsNone(X, n);
      StaysSuppleThen(B, J, lp, s, C, J', nfa.arcs, J', n == INFINITY, m == 0, true);
    }
    if ok {
      SuppleRejoined(A, I, lp, rp, B, J, s, nfa.arcs, J', n == INFINITY, m == 0 || optional);
      Rejoin(B, nfa.arcs, X, lp, J, J', s, I, rp);
      if AllReached(B, lp, s, J) && AllReached(B, s, rp, I) { RejoinReached(B, nfa.arcs, lp, J, J', s, I, rp); }
    }
  }
}

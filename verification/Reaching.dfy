/** Fragments all of whose states can be reached, as those of the parser are. */
module Reaching {
  import opened Automaton
  import opened Surgery
  import opened NfaModel
  import opened Cleanup
  import opened Fragments
  import opened Duplicate

  /** The arcs of the fragment that begins at `lp`. */
  function Within(A: set<Arc>, lp: nat, I: set<nat>): set<Arc> { set a | a in A && (a.from == lp || a.from in I) }

  /** All states of the fragment, the last one included, can be reached from the first one. */
  ghost predicate AllReached(A: set<Arc>, lp: nat, rp: nat, I: set<nat>) {
    forall u :: u in I || u == rp ==> Joined(Within(A, lp, I), lp, u)
  }

  // ----- paths

  lemma {:induction false} LeadsMore(A: set<Arc>, B: set<Arc>, s: nat, t: nat, n: nat)
    requires A <= B && Leads(A, s, t, n)
    ensures Leads(B, s, t, n)
    decreases n
  {
    if n > 0 {
      var a :| a in A && a.from == s && Leads(A, a.to, t, n - 1);
      LeadsMore(A, B, a.to, t, n - 1);
    }
  }

  lemma JoinedMore(A: set<Arc>, B: set<Arc>, s: nat, t: nat)
    requires A <= B && Joined(A, s, t)
    ensures Joined(B, s, t)
  {
    var n: nat :| Leads(A, s, t, n);
    LeadsMore(A, B, s, t, n);
  }

  lemma {:induction false} LeadsVia(A: set<Arc>, s: nat, m: nat, t: nat, n: nat)
    requires Leads(A, s, m, n) && Joined(A, m, t)
    ensures Joined(A, s, t)
    decreases n
  {
    if n > 0 {
      var a :| a in A && a.from == s && Leads(A, a.to, m, n - 1);
      LeadsVia(A, a.to, m, t, n - 1);
      LeadsFirst(A, a, t);
    }
  }

  lemma JoinedVia(A: set<Arc>, s: nat, m: nat, t: nat)
    requires Joined(A, s, m) && Joined(A, m, t)
    ensures Joined(A, s, t)
  {
    var n: nat :| Leads(A, s, m, n);
    LeadsVia(A, s, m, t, n);
  }

  lemma JoinedBy(A: set<Arc>, a: Arc)
    requires a in A
    ensures Joined(A, a.from, a.to)
  {
    JoinedSelf(A, a.to);
    LeadsFirst(A, a, a.to);
  }

  /** The arcs `A` have images in `B`. */
  ghost predicate Maps(A: set<Arc>, B: set<Arc>, f: nat -> nat) {
    forall a :: a in A ==> exists b :: b in B && b.from == f(a.from) && b.to == f(a.to)
  }

  lemma {:induction false} LeadsMapped(A: set<Arc>, B: set<Arc>, f: nat -> nat, s: nat, t: nat, n: nat)
    requires Maps(A, B, f) && Leads(A, s, t, n)
    ensures Leads(B, f(s), f(t), n)
    decreases n
  {
    if n > 0 {
      var a :| a in A && a.from == s && Leads(A, a.to, t, n - 1);
      LeadsMapped(A, B, f, a.to, t, n - 1);
      var b :| b in B && b.from == f(a.from) && b.to == f(a.to);
    }
  }

  lemma JoinedMapped(A: set<Arc>, B: set<Arc>, f: nat -> nat, s: nat, t: nat)
    requires Maps(A, B, f) && Joined(A, s, t)
    ensures Joined(B, f(s), f(t))
  {
    var n: nat :| Leads(A, s, t, n);
    LeadsMapped(A, B, f, s, t, n);
  }

  // ----- fragments

  /** Arcs that belong to a larger fragment as well. */
  lemma WithinMore(A: set<Arc>, B: set<Arc>, lp: nat, I: set<nat>, lp': nat, I': set<nat>, u: nat)
    requires Joined(Within(A, lp, I), lp, u) && Within(A, lp, I) <= Within(B, lp', I')
    ensures Joined(Within(B, lp', I'), lp, u)
  {
    JoinedMore(Within(A, lp, I), Within(B, lp', I'), lp, u);
  }

  /** Where the fragment's states go when its ends are hung elsewhere. */
  function Rehung(lp: nat, rp: nat, s: nat, t: nat): nat -> nat {
    (u: nat) => if u == lp then s else if u == rp then t else u
  }

  /** The fragment hung between `s` and `t`, as part of what begins at `lp'`. */
  lemma ReachedRehung(A: set<Arc>, I: set<nat>, lp: nat, rp: nat, B: set<Arc>, s: nat, t: nat, lp': nat, I': set<nat>, u: nat)
    requires Fragment(A, lp, rp, I) && AllReached(A, lp, rp, I) && (u in I || u == rp)
    requires forall a :: a in Within(A, lp, I) ==>
      exists b :: b in B && b.from == Rehung(lp, rp, s, t)(a.from) && b.to == Rehung(lp, rp, s, t)(a.to)
    requires s == lp' || s in I'
    requires I <= I'
    ensures Joined(Within(B, lp', I'), s, Rehung(lp, rp, s, t)(u))
  {
    var f := Rehung(lp, rp, s, t);
    forall a | a in Within(A, lp, I)
      ensures exists b :: b in Within(B, lp', I') && b.from == f(a.from) && b.to == f(a.to)
    {
      var b :| b in B && b.from == f(a.from) && b.to == f(a.to);
      assert b in Within(B, lp', I');
    }
    assert Maps(Within(A, lp, I), Within(B, lp', I'), f);
    JoinedMapped(Within(A, lp, I), Within(B, lp', I'), f, lp, u);
  }

  /** Two fragments in a row. */
  lemma ReachedInARow(A: set<Arc>, I1: set<nat>, I2: set<nat>, lp: nat, mid: nat, rp: nat)
    requires AllReached(A, lp, mid, I1) && AllReached(A, mid, rp, I2)
    ensures AllReached(A, lp, rp, I1 + {mid} + I2)
  {
    var I := I1 + {mid} + I2;
    forall u | u in I1 || u == mid ensures Joined(Within(A, lp, I), lp, u) { WithinMore(A, A, lp, I1, lp, I, u); }
    forall u | u in I2 || u == rp ensures Joined(Within(A, lp, I), lp, u) {
      WithinMore(A, A, mid, I2, lp, I, u);
      JoinedVia(Within(A, lp, I), lp, mid, u);
    }
  }

  // ----- duplicates

  /** What can be reached is among what has been duplicated. */
  lemma {:induction false} LeadsAmong(A: set<Arc>, R: set<nat>, stop: nat, u: nat, v: nat, n: nat)
    requires (forall a :: a in A && a.from in R ==> a.to == stop || a.to in R) && stop !in R
    requires (forall a :: a in A ==> a.from != stop) && u in R && Leads(A, u, v, n)
    ensures Leads((set a | a in A && a.from in R), u, v, n) && (v in R || v == stop)
    decreases n
  {
    var B := set a | a in A && a.from in R;
    if n > 0 {
      var a :| a in A && a.from == u && Leads(A, a.to, v, n - 1);
      assert a in B;
      if a.to == stop {
        assert n == 1;
        assert Leads(B, v, v, 0);
      } else {
        LeadsAmong(A, R, stop, a.to, v, n - 1);
      }
    }
  }

  function Copies(no: map<nat, nat>, start: nat, stop: nat, from: nat, to: nat): nat -> nat {
    (u: nat) => if u == start then from else if u == stop then to else if u in no then no[u] else u
  }

  lemma ReachedDuplicate(A: set<Arc>, I: set<nat>, start: nat, stop: nat, G0: set<Arc>, from: nat, to: nat,
                         R: set<nat>, no: map<nat, nat>, J: set<nat>, base: nat, hi: nat, G: set<Arc>)
    requires Fragment(A, start, stop, I) && AllReached(A, start, stop, I)
    requires Duplicated(A, I, start, stop, G0, from, to, R, no, J, base, hi, G)
    ensures AllReached(G, from, to, J)
  {
    var f, S := Copies(no, start, stop, from, to), Within(A, start, I);
    var B := set a | a in S && a.from in R;
    forall a | a in B ensures exists b :: b in Within(G, from, J) && b.from == f(a.from) && b.to == f(a.to) {
      var b := Strung(a, no, start, stop, from, to);
      assert b in G && a.from in no.Keys + {start};
      assert a.to == stop || a.to in no;
      assert b in Within(G, from, J);
    }
    assert Maps(B, Within(G, from, J), f);
    forall v | v in J || v == to ensures Joined(Within(G, from, J), from, v) {
      var u: nat;
      if v in J { u :| u in no && no[u] == v; } else { u := stop; }
      assert f(u) == v by { assert u in no ==> u in I; }
      var n: nat :| Leads(S, start, u, n);
      LeadsAmong(S, R, stop, start, u, n);
      assert B == set a | a in S && a.from in R;
      JoinedMapped(B, Within(G, from, J), f, start, u);
    }
  }
}

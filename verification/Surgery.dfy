/** The small rewritings that `unempty`, `pull` and `push` are made of, each
    shown to keep the accepted words. `A` is the arc set before, `B` after. */
module Surgery {
  import opened Automaton

  predicate Constraint(k: Kind) { k == Begin || k == End || k == Behind || k == Ahead }

  function InArcs(A: set<Arc>, s: nat): set<Arc> { set a | a in A && a.to == s }

  function OutArcs(A: set<Arc>, s: nat): set<Arc> { set a | a in A && a.from == s }

  /** The types and colours that the arcs carry. */
  function Labels(A: set<Arc>): set<(Kind, int)> { set a | a in A :: (a.kind, a.co) }

  ghost predicate Untouched(A: set<Arc>, z: nat) { forall a :: a in A ==> a.from != z && a.to != z }

  /** No arc enters pre or leaves post, nothing leads straight from pre to post,
      and only Plain and Begin arcs leave pre, only Plain and End arcs enter post. */
  ghost predicate Shaped(x: Frame, A: set<Arc>) {
    forall a :: a in A ==>
      && a.to != x.pre && a.from != x.post
      && (a.from == x.pre ==> (a.kind == Plain || a.kind == Begin) && a.to != x.post)
      && (a.to == x.post ==> a.kind == Plain || a.kind == End)
  }

  // ----- deleting arcs that no accepting path needs

  lemma {:induction false} SkipIdle(x: Frame, A: set<Arc>, w: seq<int>, s: nat, i: int, n: nat, d: Arc) returns (m: nat)
    requires 0 <= i <= |w|
    requires d.from == d.to && Width(x, d) == 0
    requires Ends(x, A, w, s, i, n)
    ensures Ends(x, A - {d}, w, s, i, m)
    decreases n
  {
    if n == 0 {
      m := 0;
    } else {
      var a := PathFirst(x, A, w, s, i, x.post, |w|, n);
      m := SkipIdle(x, A, w, a.to, i + Width(x, a), n - 1, d);
      if a != d {
        PathCons(x, A - {d}, w, a, i, x.post, |w|, m);
        m := m + 1;
      }
    }
  }

  /** An arc that consumes nothing and returns to its own state is pointless. */
  lemma DropIdle(x: Frame, A: set<Arc>, d: Arc)
    requires d.from == d.to && Width(x, d) == 0
    ensures SameLanguage(x, A, A - {d})
  {
    forall y: Frame, w | Like(x, y) ensures Accepts(y, A, w) <==> Accepts(y, A - {d}, w) {
      if Accepts(y, A, w) {
        var n: nat :| Ends(y, A, w, y.pre, 0, n);
        var m := SkipIdle(y, A, w, y.pre, 0, n, d);
      }
      if Accepts(y, A - {d}, w) {
        AcceptsGrow(y, A - {d}, A, w);
      }
    }
  }

  lemma {:induction false} AvoidState(x: Frame, A: set<Arc>, B: set<Arc>, w: seq<int>, s: nat, i: int, n: nat, f: nat)
    requires 0 <= i <= |w| && s != f
    requires InArcs(A, f) == {}
    requires forall a :: a in A && a.from != f ==> a in B
    requires Ends(x, A, w, s, i, n)
    ensures Ends(x, B, w, s, i, n)
    decreases n
  {
    if n > 0 {
      var a := PathFirst(x, A, w, s, i, x.post, |w|, n);
      assert a.to == f ==> a in InArcs(A, f);
      AvoidState(x, A, B, w, a.to, i + Width(x, a), n - 1, f);
      PathCons(x, B, w, a, i, x.post, |w|, n - 1);
    }
  }

  /** Arcs out of a state that nothing enters are never followed. */
  lemma DropUnreached(x: Frame, A: set<Arc>, B: set<Arc>, f: nat)
    requires f != x.pre && InArcs(A, f) == {}
    requires B <= A && forall a :: a in A && a.from != f ==> a in B
    ensures SameLanguage(x, A, B)
  {
    forall y: Frame, w | Like(x, y) ensures Accepts(y, A, w) <==> Accepts(y, B, w) {
      if Accepts(y, A, w) {
        var n: nat :| Ends(y, A, w, y.pre, 0, n);
        AvoidState(y, A, B, w, y.pre, 0, n, f);
      }
      if Accepts(y, B, w) {
        AcceptsGrow(y, B, A, w);
      }
    }
  }

  lemma {:induction false} AvoidDeadEnd(x: Frame, A: set<Arc>, B: set<Arc>, w: seq<int>, s: nat, i: int, n: nat, t: nat)
    requires 0 <= i <= |w| && t != x.post
    requires OutArcs(A, t) == {}
    requires forall a :: a in A && a.to != t ==> a in B
    requires Ends(x, A, w, s, i, n)
    ensures Ends(x, B, w, s, i, n)
    decreases n
  {
    if n > 0 {
      var a := PathFirst(x, A, w, s, i, x.post, |w|, n);
      AvoidDeadEnd(x, A, B, w, a.to, i + Width(x, a), n - 1, t);
      assert forall b :: b in A && b.from == t ==> b in OutArcs(A, t);
      if a.to == t {
        var b := PathFirst(x, A, w, t, i + Width(x, a), x.post, |w|, n - 1);
        assert false;
      }
      PathCons(x, B, w, a, i, x.post, |w|, n - 1);
    }
  }

  /** Arcs into a state that nothing leaves lead nowhere. */
  lemma DropDeadEnd(x: Frame, A: set<Arc>, B: set<Arc>, t: nat)
    requires t != x.post && OutArcs(A, t) == {}
    requires B <= A && forall a :: a in A && a.to != t ==> a in B
    ensures SameLanguage(x, A, B)
  {
    forall y: Frame, w | Like(x, y) ensures Accepts(y, A, w) <==> Accepts(y, B, w) {
      if Accepts(y, A, w) {
        var n: nat :| Ends(y, A, w, y.pre, 0, n);
        AvoidDeadEnd(y, A, B, w, y.pre, 0, n, t);
      }
      if Accepts(y, B, w) {
        AcceptsGrow(y, B, A, w);
      }
    }
  }

  // ----- cloning a state so that the constraint stands alone

  /** `from` keeps its other out-arcs; the clone `z` gets all its in-arcs and `con`. */
  function CloneFrom(A: set<Arc>, con: Arc, z: nat): set<Arc> {
    A - {con} + (set a | a in InArcs(A, con.from) :: a.(to := z)) + {con.(from := z)}
  }

  lemma {:induction false} CloneFromForward(x: Frame, A: set<Arc>, w: seq<int>, s: nat, i: int, n: nat, con: Arc, z: nat)
    requires 0 <= i <= |w|
    requires con in A && con.from != con.to && con.from != x.pre && con.from != x.post
    requires Untouched(A, z) && z != x.pre && z != x.post
    requires Ends(x, A, w, s, i, n)
    ensures Ends(x, CloneFrom(A, con, z), w, s, i, n) || (s == con.from && Ends(x, CloneFrom(A, con, z), w, z, i, n))
    decreases n
  {
    if n > 0 {
      var B := CloneFrom(A, con, z);
      var a := PathFirst(x, A, w, s, i, x.post, |w|, n);
      CloneFromForward(x, A, w, a.to, i + Width(x, a), n - 1, con, z);
      if a == con {
        assert con.(from := z) in B;
        PathCons(x, B, w, con.(from := z), i, x.post, |w|, n - 1);
      } else if Ends(x, B, w, a.to, i + Width(x, a), n - 1) {
        PathCons(x, B, w, a, i, x.post, |w|, n - 1);
      } else {
        assert a in InArcs(A, con.from);
        PathCons(x, B, w, a.(to := z), i, x.post, |w|, n - 1);
      }
    }
  }

  lemma {:induction false} CloneFromBackward(x: Frame, A: set<Arc>, w: seq<int>, s: nat, i: int, n: nat, con: Arc, z: nat)
    requires 0 <= i <= |w|
    requires con in A && con.from != con.to && con.from != x.pre && con.from != x.post
    requires Untouched(A, z) && z != x.pre && z != x.post
    requires Ends(x, CloneFrom(A, con, z), w, s, i, n)
    ensures Ends(x, A, w, if s == z then con.from else s, i, n)
    decreases n
  {
    if n > 0 {
      var B := CloneFrom(A, con, z);
      var b := PathFirst(x, B, w, s, i, x.post, |w|, n);
      CloneFromBackward(x, A, w, b.to, i + Width(x, b), n - 1, con, z);
      if b == con.(from := z) {
        PathCons(x, A, w, con, i, x.post, |w|, n - 1);
      } else if b.to == z {
        assert b.(to := con.from) in A;
        PathCons(x, A, w, b.(to := con.from), i, x.post, |w|, n - 1);
      } else {
        PathCons(x, A, w, b, i, x.post, |w|, n - 1);
      }
    }
  }

  lemma CloneFromKeeps(x: Frame, A: set<Arc>, con: Arc, z: nat)
    requires con in A && con.from != con.to && con.from != x.pre && con.from != x.post
    requires Untouched(A, z) && z != x.pre && z != x.post
    ensures SameLanguage(x, A, CloneFrom(A, con, z))
  {
    var B := CloneFrom(A, con, z);
    forall y: Frame, w | Like(x, y) ensures Accepts(y, A, w) <==> Accepts(y, B, w) {
      if Accepts(y, A, w) {
        var n: nat :| Ends(y, A, w, y.pre, 0, n);
        CloneFromForward(y, A, w, y.pre, 0, n, con, z);
      }
      if Accepts(y, B, w) {
        var n: nat :| Ends(y, B, w, y.pre, 0, n);
        CloneFromBackward(y, A, w, y.pre, 0, n, con, z);
      }
    }
  }

  /** `to` keeps its other in-arcs; the clone `z` gets all its out-arcs and `con`. */
  function CloneTo(A: set<Arc>, con: Arc, z: nat): set<Arc> {
    A - {con} + (set a | a in OutArcs(A, con.to) :: a.(from := z)) + {con.(to := z)}
  }

  lemma {:induction false} CloneToForward(x: Frame, A: set<Arc>, w: seq<int>, s: nat, i: int, n: nat, con: Arc, z: nat)
    requires 0 <= i <= |w|
    requires con in A && con.from != con.to && con.to != x.pre && con.to != x.post
    requires Untouched(A, z) && z != x.pre && z != x.post
    requires Ends(x, A, w, s, i, n)
    ensures Ends(x, CloneTo(A, con, z), w, s, i, n)
    ensures s == con.to ==> Ends(x, CloneTo(A, con, z), w, z, i, n)
    decreases n
  {
    if n > 0 {
      var B := CloneTo(A, con, z);
      var a := PathFirst(x, A, w, s, i, x.post, |w|, n);
      CloneToForward(x, A, w, a.to, i + Width(x, a), n - 1, con, z);
      if a == con {
        PathCons(x, B, w, con.(to := z), i, x.post, |w|, n - 1);
      } else {
        PathCons(x, B, w, a, i, x.post, |w|, n - 1);
        if s == con.to {
          assert a in OutArcs(A, con.to);
          PathCons(x, B, w, a.(from := z), i, x.post, |w|, n - 1);
        }
      }
    }
  }

  lemma {:induction false} CloneToBackward(x: Frame, A: set<Arc>, w: seq<int>, s: nat, i: int, n: nat, con: Arc, z: nat)
    requires 0 <= i <= |w|
    requires con in A && con.from != con.to && con.to != x.pre && con.to != x.post
    requires Untouched(A, z) && z != x.pre && z != x.post
    requires Ends(x, CloneTo(A, con, z), w, s, i, n)
    ensures Ends(x, A, w, if s == z then con.to else s, i, n)
    decreases n
  {
    if n > 0 {
      var B := CloneTo(A, con, z);
      var b := PathFirst(x, B, w, s, i, x.post, |w|, n);
      CloneToBackward(x, A, w, b.to, i + Width(x, b), n - 1, con, z);
      if b == con.(to := z) {
        PathCons(x, A, w, con, i, x.post, |w|, n - 1);
      } else if b.from == z {
        assert b.(from := con.to) in A;
        PathCons(x, A, w, b.(from := con.to), i, x.post, |w|, n - 1);
      } else {
        PathCons(x, A, w, b, i, x.post, |w|, n - 1);
      }
    }
  }

  lemma CloneToKeeps(x: Frame, A: set<Arc>, con: Arc, z: nat)
    requires con in A && con.from != con.to && con.to != x.pre && con.to != x.post
    requires Untouched(A, z) && z != x.pre && z != x.post
    ensures SameLanguage(x, A, CloneTo(A, con, z))
  {
    var B := CloneTo(A, con, z);
    forall y: Frame, w | Like(x, y) ensures Accepts(y, A, w) <==> Accepts(y, B, w) {
      if Accepts(y, A, w) {
        var n: nat :| Ends(y, A, w, y.pre, 0, n);
        CloneToForward(y, A, w, y.pre, 0, n, con, z);
      }
      if Accepts(y, B, w) {
        var n: nat :| Ends(y, B, w, y.pre, 0, n);
        CloneToBackward(y, A, w, y.pre, 0, n, con, z);
      }
    }
  }

  // ----- two arcs in a row

  /** Following `a` and then `b` is possible after `i` symbols. */
  ghost predicate Both(x: Frame, a: Arc, b: Arc, w: seq<int>, i: int)
    requires 0 <= i <= |w|
  {
    Can(x, a, w, i) && Can(x, b, w, i + Width(x, a))
  }

  /** `c` does the work of `a` followed by `b`. */
  ghost predicate Joins(x: Frame, a: Arc, b: Arc, c: Arc) {
    && a.to == b.from && c.from == a.from && c.to == b.to
    && Width(x, c) == Width(x, a) + Width(x, b)
    && forall y: Frame, w: seq<int>, i | Like(x, y) && 0 <= i <= |w| :: Both(y, a, b, w, i) <==> Can(y, c, w, i)
  }

  ghost predicate NeverBoth(x: Frame, a: Arc, b: Arc) {
    a.to == b.from && forall y: Frame, w: seq<int>, i | Like(x, y) && 0 <= i <= |w| :: !Both(y, a, b, w, i)
  }

  lemma TwoArcs(x: Frame, A: set<Arc>, w: seq<int>, a: Arc, b: Arc, i: int, t: nat, j: int, n: nat)
    requires 0 <= i <= |w| && a in A && b in A && a.to == b.from
    requires Both(x, a, b, w, i)
    requires Path(x, A, w, b.to, i + Width(x, a) + Width(x, b), t, j, n)
    ensures Path(x, A, w, a.from, i, t, j, n + 2)
  {
    PathCons(x, A, w, b, i + Width(x, a), t, j, n);
    PathCons(x, A, w, a, i, t, j, n + 1);
  }

  /** Two arcs of `A` that may take the place of `p` followed by `q`. */
  ghost predicate Stands(x: Frame, a: Arc, b: Arc, p: Arc, q: Arc) {
    && a.to == b.from && p.to == q.from && a.from == p.from && b.to == q.to
    && Width(x, a) + Width(x, b) == Width(x, p) + Width(x, q)
    && forall y: Frame, w: seq<int>, i | Like(x, y) && 0 <= i <= |w| :: Both(y, a, b, w, i) <==> Both(y, p, q, w, i)
  }

  /** Whatever following `a` and then `b` achieves can be had from arcs of `A`. */
  ghost predicate Covered(x: Frame, A: set<Arc>, a: Arc, b: Arc) {
    || NeverBoth(x, a, b)
    || (exists c :: c in A && Joins(x, a, b, c))
    || (exists p, q :: p in A && q in A && Stands(x, a, b, p, q))
  }

  lemma UseCover(x: Frame, A: set<Arc>, w: seq<int>, a: Arc, b: Arc, i: int, n: nat) returns (m: nat)
    requires 0 <= i <= |w|
    requires Covered(x, A, a, b) && a.to == b.from && Both(x, a, b, w, i)
    requires Ends(x, A, w, b.to, i + Width(x, a) + Width(x, b), n)
    ensures Ends(x, A, w, a.from, i, m)
  {
    if c :| c in A && Joins(x, a, b, c) {
      PathCons(x, A, w, c, i, x.post, |w|, n);
      m := n + 1;
    } else {
      var p, q :| p in A && q in A && Stands(x, a, b, p, q);
      assert Both(x, p, q, w, i);
      TwoArcs(x, A, w, p, q, i, x.post, |w|, n);
      m := n + 2;
    }
  }

  lemma {:induction false} WithoutIn(x: Frame, A: set<Arc>, w: seq<int>, s: nat, i: int, n: nat, a: Arc) returns (m: nat)
    requires 0 <= i <= |w|
    requires a.from != a.to && a.to != x.post
    requires forall b :: b in A && b.from == a.to ==> Covered(x, A - {a}, a, b)
    requires Ends(x, A, w, s, i, n)
    ensures Ends(x, A - {a}, w, s, i, m)
    decreases n
  {
    if n == 0 {
      m := 0;
    } else {
      var c := PathFirst(x, A, w, s, i, x.post, |w|, n);
      if c == a {
        var b := PathFirst(x, A, w, a.to, i + Width(x, a), x.post, |w|, n - 1);
        m := WithoutIn(x, A, w, b.to, i + Width(x, a) + Width(x, b), n - 2, a);
        m := UseCover(x, A - {a}, w, a, b, i, m);
      } else {
        m := WithoutIn(x, A, w, c.to, i + Width(x, c), n - 1, a);
        PathCons(x, A - {a}, w, c, i, x.post, |w|, m);
        m := m + 1;
      }
    }
  }

  /** `a` may go when each arc after it is covered. */
  lemma RemoveIn(x: Frame, A: set<Arc>, a: Arc)
    requires a.from != a.to && a.to != x.post
    requires forall b :: b in A && b.from == a.to ==> Covered(x, A - {a}, a, b)
    ensures SameLanguage(x, A, A - {a})
  {
    forall y: Frame, w | Like(x, y) ensures Accepts(y, A, w) <==> Accepts(y, A - {a}, w) {
      if Accepts(y, A, w) {
        var n: nat :| Ends(y, A, w, y.pre, 0, n);
        var m := WithoutIn(y, A, w, y.pre, 0, n, a);
      }
      if Accepts(y, A - {a}, w) {
        AcceptsGrow(y, A - {a}, A, w);
      }
    }
  }

  lemma {:induction false} WithoutOut(x: Frame, A: set<Arc>, w: seq<int>, s: nat, i: int, n: nat, b: Arc) returns (m: nat)
    requires 0 <= i <= |w|
    requires b.from != b.to && b.from != x.post
    requires forall a :: a in A && a.to == b.from ==> Covered(x, A - {b}, a, b)
    requires Ends(x, A, w, s, i, n)
    ensures Ends(x, A - {b}, w, s, i, m)
         || (s == b.from && Can(x, b, w, i) && Ends(x, A - {b}, w, b.to, i + Width(x, b), m))
    decreases n
  {
    if n == 0 {
      m := 0;
    } else {
      var a := PathFirst(x, A, w, s, i, x.post, |w|, n);
      m := WithoutOut(x, A, w, a.to, i + Width(x, a), n - 1, b);
      if a == b {
      } else if Ends(x, A - {b}, w, a.to, i + Width(x, a), m) {
        PathCons(x, A - {b}, w, a, i, x.post, |w|, m);
        m := m + 1;
      } else {
        m := UseCover(x, A - {b}, w, a, b, i, m);
      }
    }
  }

  /** `b` may go when each arc before it is covered. */
  lemma RemoveOut(x: Frame, A: set<Arc>, b: Arc)
    requires b.from != b.to && b.from != x.pre && b.from != x.post
    requires forall a :: a in A && a.to == b.from ==> Covered(x, A - {b}, a, b)
    ensures SameLanguage(x, A, A - {b})
  {
    forall y: Frame, w | Like(x, y) ensures Accepts(y, A, w) <==> Accepts(y, A - {b}, w) {
      if Accepts(y, A, w) {
        var n: nat :| Ends(y, A, w, y.pre, 0, n);
        var m := WithoutOut(y, A, w, y.pre, 0, n, b);
      }
      if Accepts(y, A - {b}, w) {
        AcceptsGrow(y, A - {b}, A, w);
      }
    }
  }

  lemma {:induction false} ShortcutBackward(x: Frame, A: set<Arc>, B: set<Arc>, w: seq<int>, s: nat, i: int, n: nat) returns (m: nat)
    requires 0 <= i <= |w|
    requires forall c :: c in B ==> c in A || exists a, b :: a in A && b in A && Joins(x, a, b, c)
    requires Ends(x, B, w, s, i, n)
    ensures Ends(x, A, w, s, i, m)
    decreases n
  {
    if n == 0 {
      m := 0;
    } else {
      var c := PathFirst(x, B, w, s, i, x.post, |w|, n);
      m := ShortcutBackward(x, A, B, w, c.to, i + Width(x, c), n - 1);
      if c in A {
        PathCons(x, A, w, c, i, x.post, |w|, m);
        m := m + 1;
      } else {
        var a, b :| a in A && b in A && Joins(x, a, b, c);
        TwoArcs(x, A, w, a, b, i, x.post, |w|, m);
        m := m + 2;
      }
    }
  }

  /** Arcs that join two existing ones add no words. */
  lemma AddShortcuts(x: Frame, A: set<Arc>, B: set<Arc>)
    requires A <= B
    requires forall c :: c in B ==> c in A || exists a, b :: a in A && b in A && Joins(x, a, b, c)
    ensures SameLanguage(x, A, B)
  {
    forall y: Frame, w | Like(x, y) ensures Accepts(y, A, w) <==> Accepts(y, B, w) {
      if Accepts(y, A, w) {
        AcceptsGrow(y, A, B, w);
      }
      if Accepts(y, B, w) {
        var n: nat :| Ends(y, B, w, y.pre, 0, n);
        var m := ShortcutBackward(y, A, B, w, y.pre, 0, n);
      }
    }
  }

  lemma {:induction false} DetourBackward(x: Frame, A: set<Arc>, w: seq<int>, s: nat, i: int, n: nat, a: Arc, b: Arc, p: Arc, q: Arc)
    requires 0 <= i <= |w|
    requires a in A && b in A && Stands(x, a, b, p, q)
    requires Untouched(A, p.to) && p.to != x.post && p.from != p.to && q.to != p.to && s != p.to
    requires Ends(x, A + {p, q}, w, s, i, n)
    ensures Ends(x, A, w, s, i, n)
    decreases n
  {
    if n > 0 {
      var B := A + {p, q};
      var c := PathFirst(x, B, w, s, i, x.post, |w|, n);
      if c == p {
        var d := PathFirst(x, B, w, p.to, i + Width(x, p), x.post, |w|, n - 1);
        assert d == q;
        DetourBackward(x, A, w, q.to, i + Width(x, p) + Width(x, q), n - 2, a, b, p, q);
        assert Both(x, p, q, w, i);
        TwoArcs(x, A, w, a, b, i, x.post, |w|, n - 2);
      } else {
        DetourBackward(x, A, w, c.to, i + Width(x, c), n - 1, a, b, p, q);
        PathCons(x, A, w, c, i, x.post, |w|, n - 1);
      }
    }
  }

  /** Two arcs through a fresh state that stand for two existing ones add no words. */
  lemma AddDetour(x: Frame, A: set<Arc>, a: Arc, b: Arc, p: Arc, q: Arc)
    requires a in A && b in A && Stands(x, a, b, p, q)
    requires Untouched(A, p.to) && p.to != x.post && p.to != x.pre && p.from != p.to && q.to != p.to
    ensures SameLanguage(x, A, A + {p, q})
  {
    forall y: Frame, w | Like(x, y) ensures Accepts(y, A, w) <==> Accepts(y, A + {p, q}, w) {
      if Accepts(y, A, w) {
        AcceptsGrow(y, A, A + {p, q}, w);
      }
      if Accepts(y, A + {p, q}, w) {
        var n: nat :| Ends(y, A + {p, q}, w, y.pre, 0, n);
        DetourBackward(y, A, w, y.pre, 0, n, a, b, p, q);
      }
    }
  }
}

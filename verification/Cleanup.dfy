/** Dropping the states that lie on no path from pre to post. */
module Cleanup {
  import opened Automaton
  import opened Surgery
  import opened NfaModel

  /** `n` arcs lead from `s` to `t`, whatever they are labelled with. */
  ghost predicate Leads(A: set<Arc>, s: nat, t: nat, n: nat)
    decreases n
  {
    if n == 0 then s == t else exists a :: a in A && a.from == s && Leads(A, a.to, t, n - 1)
  }

  ghost predicate Joined(A: set<Arc>, s: nat, t: nat) { exists n: nat :: Leads(A, s, t, n) }

  lemma LeadsFirst(A: set<Arc>, a: Arc, t: nat)
    requires a in A && Joined(A, a.to, t)
    ensures Joined(A, a.from, t)
  {
    var n: nat :| Leads(A, a.to, t, n);
    assert Leads(A, a.from, t, n + 1);
  }

  lemma {:induction false} LeadsLast(A: set<Arc>, s: nat, a: Arc, n: nat)
    requires a in A && Leads(A, s, a.from, n)
    ensures Leads(A, s, a.to, n + 1)
    decreases n
  {
    if n == 0 {
      assert Leads(A, a.to, a.to, 0);
    } else {
      var b :| b in A && b.from == s && Leads(A, b.to, a.from, n - 1);
      LeadsLast(A, b.to, a, n - 1);
    }
  }

  lemma JoinedLast(A: set<Arc>, s: nat, a: Arc)
    requires a in A && Joined(A, s, a.from)
    ensures Joined(A, s, a.to)
  {
    var n: nat :| Leads(A, s, a.from, n);
    LeadsLast(A, s, a, n);
  }

  lemma JoinedSelf(A: set<Arc>, s: nat)
    ensures Joined(A, s, s)
  {
    assert Leads(A, s, s, 0);
  }

  const UNMARKED: int := -1

  function Mark(tmp: map<nat, nat>, s: nat): int { if s in tmp then tmp[s] else UNMARKED }

  function Members(s: seq<nat>): set<nat> { set u | u in s }

  /** Marks change only from `okay` to `mark`. */
  ghost predicate Marked(before: map<nat, nat>, after: map<nat, nat>, okay: int, mark: nat) {
    forall u :: Mark(after, u) == Mark(before, u) || (Mark(before, u) == okay && Mark(after, u) == mark)
  }

  ghost predicate NewlyMarked(before: map<nat, nat>, after: map<nat, nat>, u: nat) {
    Mark(after, u) != Mark(before, u)
  }

  function Unvisited(states: seq<nat>, tmp: map<nat, nat>, okay: int): set<nat> {
    set u | u in states && Mark(tmp, u) == okay
  }

  lemma FewerUnvisited(states: seq<nat>, before: map<nat, nat>, after: map<nat, nat>, okay: int, mark: nat)
    requires Marked(before, after, okay, mark) && mark != okay
    ensures |Unvisited(states, after, okay)| <= |Unvisited(states, before, okay)|
  {
    SmallerSet(Unvisited(states, after, okay), Unvisited(states, before, okay));
  }

  lemma {:induction false} SmallerSet<T>(a: set<T>, b: set<T>)
    requires a <= b
    ensures |a| <= |b|
  {
    assert b == a + (b - a) && a !! (b - a);
  }

  /** Mark everything that arcs lead to from `s` through states marked `okay`. */
  method MarkReachable(nfa: Nfa, s: nat, okay: int, mark: nat)
    requires nfa.Valid() && s in nfa.states && mark != okay
    modifies nfa`tmp
    ensures nfa.Valid() && nfa.tmp.Keys <= old(nfa.tmp.Keys) + Members(nfa.states) && Marked(old(nfa.tmp), nfa.tmp, okay, mark) && Mark(nfa.tmp, s) != okay
    ensures forall a :: a in nfa.arcs && NewlyMarked(old(nfa.tmp), nfa.tmp, a.from) ==> Mark(nfa.tmp, a.to) != okay
    ensures forall u :: NewlyMarked(old(nfa.tmp), nfa.tmp, u) ==> Joined(nfa.arcs, s, u)
    decreases |Unvisited(nfa.states, nfa.tmp, okay)|
  {
    if Mark(nfa.tmp, s) != okay {
      return;
    }
    ghost var before := nfa.tmp;
    assert s in Unvisited(nfa.states, before, okay);
    nfa.tmp := nfa.tmp[s := mark];
    assert Unvisited(nfa.states, nfa.tmp, okay) == Unvisited(nfa.states, before, okay) - {s};
    ghost var began := nfa.tmp;
    JoinedSelf(nfa.arcs, s);
    var outs := OutArcs(nfa.arcs, s);
    while outs != {}
      invariant outs <= OutArcs(nfa.arcs, s)
      invariant nfa.Valid() && nfa.tmp.Keys <= before.Keys + Members(nfa.states) && Marked(began, nfa.tmp, okay, mark)
      invariant forall a :: a in OutArcs(nfa.arcs, s) - outs ==> Mark(nfa.tmp, a.to) != okay
      invariant forall a :: a in nfa.arcs && NewlyMarked(began, nfa.tmp, a.from) ==> Mark(nfa.tmp, a.to) != okay
      invariant forall u :: NewlyMarked(began, nfa.tmp, u) ==> Joined(nfa.arcs, s, u)
      decreases outs
    {
      var a :| a in outs;
      ghost var mid := nfa.tmp;
      FewerUnvisited(nfa.states, began, mid, okay, mark);
      MarkReachable(nfa, a.to, okay, mark);
      forall b | b in nfa.arcs && NewlyMarked(began, nfa.tmp, b.from) ensures Mark(nfa.tmp, b.to) != okay {
        assert NewlyMarked(began, mid, b.from) || NewlyMarked(mid, nfa.tmp, b.from);
      }
      forall u | NewlyMarked(mid, nfa.tmp, u) ensures Joined(nfa.arcs, s, u) {
        LeadsFirst(nfa.arcs, a, u);
      }
      outs := outs - {a};
    }
    forall a | a in nfa.arcs && a.from == s ensures Mark(nfa.tmp, a.to) != okay {
      assert a in OutArcs(nfa.arcs, s);
    }
  }

  /** Mark everything from which arcs lead to `s` through states marked `okay`. */
  method MarkCanReach(nfa: Nfa, s: nat, okay: int, mark: nat)
    requires nfa.Valid() && s in nfa.states && mark != okay
    modifies nfa`tmp
    ensures nfa.Valid() && nfa.tmp.Keys <= old(nfa.tmp.Keys) + Members(nfa.states) && Marked(old(nfa.tmp), nfa.tmp, okay, mark) && Mark(nfa.tmp, s) != okay
    ensures forall a :: a in nfa.arcs && NewlyMarked(old(nfa.tmp), nfa.tmp, a.to) ==> Mark(nfa.tmp, a.from) != okay
    ensures forall u :: NewlyMarked(old(nfa.tmp), nfa.tmp, u) ==> Joined(nfa.arcs, u, s)
    decreases |Unvisited(nfa.states, nfa.tmp, okay)|
  {
    if Mark(nfa.tmp, s) != okay {
      return;
    }
    ghost var before := nfa.tmp;
    assert s in Unvisited(nfa.states, before, okay);
    nfa.tmp := nfa.tmp[s := mark];
    assert Unvisited(nfa.states, nfa.tmp, okay) == Unvisited(nfa.states, before, okay) - {s};
    ghost var began := nfa.tmp;
    JoinedSelf(nfa.arcs, s);
    var ins := InArcs(nfa.arcs, s);
    while ins != {}
      invariant ins <= InArcs(nfa.arcs, s)
      invariant nfa.Valid() && nfa.tmp.Keys <= before.Keys + Members(nfa.states) && Marked(began, nfa.tmp, okay, mark)
      invariant forall a :: a in InArcs(nfa.arcs, s) - ins ==> Mark(nfa.tmp, a.from) != okay
      invariant forall a :: a in nfa.arcs && NewlyMarked(began, nfa.tmp, a.to) ==> Mark(nfa.tmp, a.from) != okay
      invariant forall u :: NewlyMarked(began, nfa.tmp, u) ==> Joined(nfa.arcs, u, s)
      decreases ins
    {
      var a :| a in ins;
      ghost var mid := nfa.tmp;
      FewerUnvisited(nfa.states, began, mid, okay, mark);
      MarkCanReach(nfa, a.from, okay, mark);
      forall b | b in nfa.arcs && NewlyMarked(began, nfa.tmp, b.to) ensures Mark(nfa.tmp, b.from) != okay {
        assert NewlyMarked(began, mid, b.to) || NewlyMarked(mid, nfa.tmp, b.to);
      }
      forall u | NewlyMarked(mid, nfa.tmp, u) ensures Joined(nfa.arcs, u, s) {
        JoinedLast(nfa.arcs, u, a);
      }
      ins := ins - {a};
    }
    forall a | a in nfa.arcs && a.to == s ensures Mark(nfa.tmp, a.from) != okay {
      assert a in InArcs(nfa.arcs, s);
    }
  }

  /** Unmark everything that arcs lead to from `s` through marked states. */
  method ClearTraverse(nfa: Nfa, s: nat)
    requires nfa.Valid() && s in nfa.states
    modifies nfa`tmp
    ensures nfa.Valid() && nfa.tmp.Keys <= old(nfa.tmp.Keys) && s !in nfa.tmp
    ensures forall a :: a in nfa.arcs && a.from in old(nfa.tmp) && a.from !in nfa.tmp ==> a.to !in nfa.tmp
    decreases |nfa.tmp.Keys|
  {
    if s !in nfa.tmp {
      return;
    }
    ghost var before := nfa.tmp;
    nfa.tmp := nfa.tmp - {s};
    assert nfa.tmp.Keys == before.Keys - {s};
    ghost var began := nfa.tmp;
    var outs := OutArcs(nfa.arcs, s);
    while outs != {}
      invariant nfa.Valid() && outs <= OutArcs(nfa.arcs, s)
      invariant nfa.tmp.Keys <= began.Keys
      invariant forall a :: a in OutArcs(nfa.arcs, s) - outs ==> a.to !in nfa.tmp
      invariant forall a :: a in nfa.arcs && a.from in began && a.from !in nfa.tmp ==> a.to !in nfa.tmp
      decreases outs
    {
      var a :| a in outs;
      SmallerSet(nfa.tmp.Keys, began.Keys);
      ClearTraverse(nfa, a.to);
      outs := outs - {a};
    }
    forall a | a in nfa.arcs && a.from == s ensures a.to !in nfa.tmp {
      assert a in OutArcs(nfa.arcs, s);
    }
  }

  // ----- what the marks mean

  ghost predicate OnPath(x: Frame, A: set<Arc>, u: nat) { Joined(A, x.pre, u) && Joined(A, u, x.post) }

  /** Every state but pre and post lies on a path from pre to post. */
  ghost predicate AllOnPath(x: Frame, A: set<Arc>, S: set<nat>) {
    forall u :: u in S && u != x.pre && u != x.post ==> OnPath(x, A, u)
  }

  /** The states that a cleanup keeps. */
  ghost function Survivors(x: Frame, A: set<Arc>, S: set<nat>): set<nat> {
    set u | u in S && (OnPath(x, A, u) || u == x.pre || u == x.post)
  }

  /** Marked with post are exactly the states on a path. */
  ghost predicate PathMarks(x: Frame, A: set<Arc>, S: set<nat>, tmp: map<nat, nat>) {
    && tmp.Keys <= S && x.pre in tmp && (x.post in tmp ==> Mark(tmp, x.post) == x.post)
    && forall u :: u in S ==> (Mark(tmp, u) == x.post <==> OnPath(x, A, u))
  }

  lemma {:induction false} ClosedForward(A: set<Arc>, R: set<nat>, s: nat, u: nat, n: nat)
    requires s in R && forall a :: a in A && a.from in R ==> a.to in R
    requires Leads(A, s, u, n)
    ensures u in R
    decreases n
  {
    if n > 0 {
      var a :| a in A && a.from == s && Leads(A, a.to, u, n - 1);
      ClosedForward(A, R, a.to, u, n - 1);
    }
  }

  lemma {:induction false} ClosedBackward(A: set<Arc>, R: set<nat>, C: set<nat>, u: nat, t: nat, n: nat)
    requires u in R && (t in R ==> t in C)
    requires forall a :: a in A && a.from in R ==> a.to in R
    requires forall a :: a in A && a.from in R && a.to in C ==> a.from in C
    requires Leads(A, u, t, n)
    ensures u in C
    decreases n
  {
    if n > 0 {
      var a :| a in A && a.from == u && Leads(A, a.to, t, n - 1);
      ClosedBackward(A, R, C, a.to, t, n - 1);
    }
  }

  /** `R` are the states marked from pre, `C` those of them then marked from post. */
  lemma MarkedIsOnPath(x: Frame, A: set<Arc>, R: set<nat>, C: set<nat>, u: nat)
    requires x.pre in R && (x.post in R ==> x.post in C)
    requires forall a :: a in A && a.from in R ==> a.to in R
    requires forall a :: a in A && a.from in R && a.to in C ==> a.from in C
    requires OnPath(x, A, u)
    ensures u in C
  {
    var m: nat :| Leads(A, x.pre, u, m);
    ClosedForward(A, R, x.pre, u, m);
    var n: nat :| Leads(A, u, x.post, n);
    ClosedBackward(A, R, C, u, x.post, n);
  }

  /** The marks left by `MarkReachable` from pre and `MarkCanReach` from post. */
  method MarkPaths(nfa: Nfa)
    requires nfa.Valid() && nfa.Clean() && nfa.pre != nfa.post
    modifies nfa`tmp
    ensures nfa.Valid()
    ensures PathMarks(nfa.Ctx(), nfa.arcs, Members(nfa.states), nfa.tmp)
  {
    MarkReachable(nfa, nfa.pre, UNMARKED, nfa.pre);
    ghost var tmp1 := nfa.tmp;
    ghost var R := tmp1.Keys;
    assert forall u :: u in R ==> NewlyMarked(map[], tmp1, u) && tmp1[u] == nfa.pre;
    MarkCanReach(nfa, nfa.post, nfa.pre, nfa.post);
    ghost var C := set u | u in R && Mark(nfa.tmp, u) == nfa.post;
    assert forall u :: u in C ==> NewlyMarked(tmp1, nfa.tmp, u);
    forall u | u in Members(nfa.states)
      ensures Mark(nfa.tmp, u) == nfa.post <==> OnPath(nfa.Ctx(), nfa.arcs, u)
    {
      assert Mark(nfa.tmp, u) == nfa.post ==> NewlyMarked(tmp1, nfa.tmp, u) && NewlyMarked(map[], tmp1, u);
      if OnPath(nfa.Ctx(), nfa.arcs, u) {
        MarkedIsOnPath(nfa.Ctx(), nfa.arcs, R, C, u);
      }
    }
  }

  /** The arcs between states that lie on a path from pre to post. */
  ghost function Trimmed(x: Frame, A: set<Arc>): set<Arc> {
    set a | a in A && OnPath(x, A, a.from) && OnPath(x, A, a.to)
  }

  lemma {:induction false} EndsJoined(x: Frame, A: set<Arc>, w: seq<int>, s: nat, i: int, n: nat)
    requires 0 <= i <= |w| && Ends(x, A, w, s, i, n)
    ensures Joined(A, s, x.post)
    decreases n
  {
    if n == 0 {
      JoinedSelf(A, s);
    } else {
      var a := PathFirst(x, A, w, s, i, x.post, |w|, n);
      EndsJoined(x, A, w, a.to, i + Width(x, a), n - 1);
      LeadsFirst(A, a, x.post);
    }
  }

  lemma {:induction false} EndsTrimmed(x: Frame, A: set<Arc>, B: set<Arc>, w: seq<int>, s: nat, i: int, n: nat)
    requires 0 <= i <= |w| && Ends(x, A, w, s, i, n) && Joined(A, x.pre, s)
    requires Trimmed(x, A) <= B
    ensures Ends(x, B, w, s, i, n)
    decreases n
  {
    if n > 0 {
      EndsJoined(x, A, w, s, i, n);
      var a := PathFirst(x, A, w, s, i, x.post, |w|, n);
      JoinedLast(A, x.pre, a);
      EndsJoined(x, A, w, a.to, i + Width(x, a), n - 1);
      EndsTrimmed(x, A, B, w, a.to, i + Width(x, a), n - 1);
      assert a in Trimmed(x, A);
      PathCons(x, B, w, a, i, x.post, |w|, n - 1);
    }
  }

  /** Arcs off the paths from pre to post may be dropped, none or some or all. */
  lemma TrimKeeps(x: Frame, A: set<Arc>, B: set<Arc>)
    requires Trimmed(x, A) <= B <= A
    ensures SameLanguage(x, A, B)
  {
    forall y: Frame, w | Like(x, y) ensures Accepts(y, A, w) <==> Accepts(y, B, w) {
      if Accepts(y, A, w) {
        var n: nat :| Ends(y, A, w, y.pre, 0, n);
        JoinedSelf(A, y.pre);
        EndsTrimmed(y, A, B, w, y.pre, 0, n);
      }
      if Accepts(y, B, w) {
        AcceptsGrow(y, B, A, w);
      }
    }
  }

  lemma {:induction false} LeadsTrimmed(x: Frame, A: set<Arc>, B: set<Arc>, s: nat, t: nat, n: nat)
    requires Leads(A, s, t, n) && Joined(A, x.pre, s) && Joined(A, t, x.post)
    requires Trimmed(x, A) <= B
    ensures Leads(B, s, t, n) && Joined(A, s, x.post)
    decreases n
  {
    if n > 0 {
      var a :| a in A && a.from == s && Leads(A, a.to, t, n - 1);
      JoinedLast(A, x.pre, a);
      LeadsTrimmed(x, A, B, a.to, t, n - 1);
      LeadsFirst(A, a, x.post);
      assert a in Trimmed(x, A);
    }
  }

  lemma OnPathTrimmed(x: Frame, A: set<Arc>, B: set<Arc>, u: nat)
    requires OnPath(x, A, u) && Trimmed(x, A) <= B
    ensures OnPath(x, B, u)
  {
    var m: nat :| Leads(A, x.pre, u, m);
    var n: nat :| Leads(A, u, x.post, n);
    JoinedSelf(A, x.pre);
    JoinedSelf(A, x.post);
    LeadsTrimmed(x, A, B, x.pre, u, m);
    LeadsTrimmed(x, A, B, u, x.post, n);
  }

  function Kept(A: set<Arc>, gone: set<nat>): set<Arc> { set a | a in A && a.from !in gone && a.to !in gone }

  lemma MembersWithout(before: seq<nat>, after: seq<nat>, s: nat)
    requires forall u :: u in after <==> u in before && u != s
    ensures Members(after) == Members(before) - {s}
  {
  }

  /** Drop a state; its mark goes with it. */
  method DropOne(nfa: Nfa, s: nat)
    requires nfa.Valid() && s in nfa.states && !nfa.Flagged(s)
    modifies nfa`states, nfa`arcs, nfa`no, nfa`tmp
    ensures nfa.Valid() && Members(nfa.states) == Members(old(nfa.states)) - {s} && nfa.tmp == old(nfa.tmp) - {s}
    ensures nfa.arcs == Kept(old(nfa.arcs), {s})
  {
    WithoutMembers(nfa.states, s);
    nfa.DropState(s);
    nfa.tmp := nfa.tmp - {s};
    MembersWithout(old(nfa.states), nfa.states, s);
  }

  /** Drop the states that are neither flagged nor marked with post. */
  method DropUnmarked(nfa: Nfa)
    requires nfa.Valid() && nfa.tmp.Keys <= Members(nfa.states)
    modifies nfa`states, nfa`arcs, nfa`no, nfa`tmp
    ensures nfa.Valid() && nfa.tmp.Keys <= Members(nfa.states)
    ensures nfa.tmp == old(nfa.tmp) - (Members(old(nfa.states)) - Members(nfa.states))
    ensures Members(nfa.states) == set u | u in Members(old(nfa.states)) && (Mark(old(nfa.tmp), u) == nfa.post || nfa.Flagged(u))
    ensures nfa.arcs == Kept(old(nfa.arcs), Members(old(nfa.states)) - Members(nfa.states))
  {
    ghost var A, S, marks := nfa.arcs, Members(nfa.states), nfa.tmp;
    var all := nfa.states;
    ghost var gone: set<nat> := {};
    for i := 0 to |all|
      invariant nfa.Valid() && Members(nfa.states) == S - gone && nfa.arcs == Kept(A, gone)
      invariant nfa.tmp == marks - gone
      invariant gone == set k | 0 <= k < i && Mark(marks, all[k]) != nfa.post && !nfa.Flagged(all[k]) :: all[k]
    {
      var s := all[i];
      if Mark(nfa.tmp, s) != nfa.post && !nfa.Flagged(s) {
        assert s in S - gone;
        DropOne(nfa, s);
        gone := gone + {s};
      }
    }
    assert forall u :: u in S ==> exists k :: 0 <= k < |all| && all[k] == u;
  }

  /** Number the states along the chain. */
  method Renumber(nfa: Nfa)
    requires nfa.Valid()
    modifies nfa`no, nfa`nstates
    ensures nfa.Valid() && nfa.Numbered()
  {
    var n := 0;
    while n < |nfa.states|
      invariant n <= |nfa.states| && nfa.Valid()
      invariant forall i :: 0 <= i < n ==> nfa.no[nfa.states[i]] == i
    {
      nfa.no := nfa.no[nfa.states[n] := n];
      n := n + 1;
    }
    nfa.nstates := n;
  }

  lemma KeptIsTrimmed(x: Frame, A: set<Arc>, gone: set<nat>, S: set<nat>)
    requires Shaped(x, A) && forall a :: a in A ==> a.from in S && a.to in S
    requires forall u :: u in S ==> (u in gone <==> !OnPath(x, A, u) && u != x.pre && u != x.post)
    ensures Kept(A, gone) == Trimmed(x, A)
  {
    forall a | a in Kept(A, gone) ensures a in Trimmed(x, A) {
      JoinedSelf(A, x.pre);
      JoinedSelf(A, x.post);
      if a.from == x.pre {
        assert OnPath(x, A, a.to);
        LeadsFirst(A, a, x.post);
      } else {
        assert OnPath(x, A, a.from);
        JoinedLast(A, x.pre, a);
      }
    }
  }

  /** What `DropUnmarked` leaves, given marks that say which states lie on a path. */
  lemma Dropped(x: Frame, A: set<Arc>, S: set<nat>, marks: map<nat, nat>, T: set<nat>, tmp: map<nat, nat>)
    requires Shaped(x, A) && forall a :: a in A ==> a.from in S && a.to in S
    requires PathMarks(x, A, S, marks)
    requires T == set u | u in S && (Mark(marks, u) == x.post || u == x.pre || u == x.post)
    requires x.pre in T && tmp == marks - (S - T)
    ensures Kept(A, S - T) == Trimmed(x, A) && SameLanguage(x, A, Trimmed(x, A)) && Shaped(x, Trimmed(x, A))
    ensures T == Survivors(x, A, S) && AllOnPath(x, Trimmed(x, A), T)
    ensures PathMarks(x, Trimmed(x, A), T, tmp)
  {
    KeptIsTrimmed(x, A, S - T, S);
    TrimKeeps(x, A, Trimmed(x, A));
    forall u | u in S && OnPath(x, A, u) ensures OnPath(x, Trimmed(x, A), u) {
      OnPathTrimmed(x, A, Trimmed(x, A), u);
    }
    forall u | u in T && OnPath(x, Trimmed(x, A), u) ensures OnPath(x, A, u) {
      OnPathGrow(x, Trimmed(x, A), A, u);
    }
  }

  lemma {:induction false} LeadsGrow(A: set<Arc>, B: set<Arc>, s: nat, t: nat, n: nat)
    requires Leads(A, s, t, n) && A <= B
    ensures Leads(B, s, t, n)
    decreases n
  {
    if n > 0 {
      var a :| a in A && a.from == s && Leads(A, a.to, t, n - 1);
      LeadsGrow(A, B, a.to, t, n - 1);
    }
  }

  lemma OnPathGrow(x: Frame, A: set<Arc>, B: set<Arc>, u: nat)
    requires OnPath(x, A, u) && A <= B
    ensures OnPath(x, B, u)
  {
    var m: nat :| Leads(A, x.pre, u, m);
    var n: nat :| Leads(A, u, x.post, n);
    LeadsGrow(A, B, x.pre, u, m);
    LeadsGrow(A, B, u, x.post, n);
  }

  /** Clear the marks that `DropUnmarked` leaves, by a traversal from pre. */
  method ClearMarks(nfa: Nfa)
    requires nfa.Valid() && PathMarks(nfa.Ctx(), nfa.arcs, Members(nfa.states), nfa.tmp) && Shaped(nfa.Ctx(), nfa.arcs)
    requires AllOnPath(nfa.Ctx(), nfa.arcs, Members(nfa.states))
    modifies nfa`tmp
    ensures nfa.Valid() && nfa.Clean()
  {
    ghost var marks, S := nfa.tmp, Members(nfa.states);
    assert forall a :: a in nfa.arcs ==> a.from in S && a.to in S;
    ClearTraverse(nfa, nfa.pre);
    AllCleared(nfa.Ctx(), nfa.arcs, S, marks.Keys, nfa.tmp.Keys);
  }

  /** The traversal gets to every mark, since the marked states are on paths from pre. */
  lemma AllCleared(x: Frame, A: set<Arc>, S: set<nat>, before: set<nat>, after: set<nat>)
    requires x.pre in before && x.pre !in after && after <= before <= S
    requires forall a :: a in A && a.from in before && a.from !in after ==> a.to !in after
    requires forall a :: a in A ==> a.from in S && a.to in S
    requires forall u :: u in before && u != x.pre ==> OnPath(x, A, u)
    requires forall a :: a in A && a.from !in before ==> a.to !in after
    ensures after == {}
  {
    forall u | u in S ensures u !in after {
      if u in before && u != x.pre {
        var n: nat :| Leads(A, x.pre, u, n);
        ClosedForward(A, S - after, x.pre, u, n);
      }
    }
  }

  /** Clean up the NFA: exactly the states on a path from pre to post stay (besides
      pre and post), they are numbered along the chain, and no mark is left. */
  method Clean(nfa: Nfa)
    requires nfa.Valid() && nfa.Clean() && Shaped(nfa.Ctx(), nfa.arcs)
    modifies nfa`states, nfa`arcs, nfa`no, nfa`nstates, nfa`tmp
    ensures nfa.Valid() && nfa.Clean() && nfa.Numbered() && Shaped(nfa.Ctx(), nfa.arcs)
    ensures SameLanguage(nfa.Ctx(), old(nfa.arcs), nfa.arcs)
    ensures nfa.arcs == Trimmed(nfa.Ctx(), old(nfa.arcs))
    ensures Members(nfa.states) == Survivors(nfa.Ctx(), old(nfa.arcs), Members(old(nfa.states)))
    ensures AllOnPath(nfa.Ctx(), nfa.arcs, Members(nfa.states))
  {
    ghost var A, S := nfa.arcs, Members(nfa.states);
    assert forall a :: a in nfa.arcs ==> a.from in S && a.to in S;
    MarkPaths(nfa);
    ghost var marks := nfa.tmp;
    DropUnmarked(nfa);
    assert nfa.pre in Members(nfa.states);
    Dropped(nfa.Ctx(), A, S, marks, Members(nfa.states), nfa.tmp);
    ClearMarks(nfa);
    Renumber(nfa);
  }
}

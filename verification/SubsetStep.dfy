/** The part of `miss` that works out the next state set. */
module SubsetStep {
  import opened Automaton
  import opened CompactNfa
  import opened Simulation

  /** The states that colour `co` leads to directly from the states of `S` below `i`,
      and from state `i` by the first `k` arcs. */
  ghost predicate Direct(c: Cnfa, S: set<nat>, co: int, i: nat, k: nat, q: nat) {
    exists r: nat, j: nat :: r in S && r < |c.outs| && j < |c.outs[r]| && (r < i || (r == i && j < k)) && c.outs[r][j] == CArc(co, q)
  }

  ghost predicate Image(c: Cnfa, S: set<nat>, co: int, q: nat) {
    exists a :: a in ArcsOf(c) && a.from in S && a.kind == Plain && a.co == co && a.to == q
  }

  lemma DirectIsImage(c: Cnfa, S: set<nat>, co: int, q: nat)
    requires 0 <= co < c.ncolors
    ensures Direct(c, S, co, |c.outs|, 0, q) <==> Image(c, S, co, q)
  {
    if Direct(c, S, co, |c.outs|, 0, q) {
      var r: nat, j: nat :| r in S && r < |c.outs| && j < |c.outs[r]| && c.outs[r][j] == CArc(co, q);
      ArcIn(c, r, j);
    }
    if Image(c, S, co, q) {
      var a :| a in ArcsOf(c) && a.from in S && a.kind == Plain && a.co == co && a.to == q;
      var k := ArcAt(c, a);
    }
  }

  lemma {:induction false} LookSnoc(c: Cnfa, t: Text, pos: int, u: nat, r: nat, n: nat, a: Arc)
    requires LookPath(c, t, pos, u, r, n) && a in ArcsOf(c) && a.from == r && a.kind == Lacon && t.holds(a.co, pos)
    ensures LookPath(c, t, pos, u, a.to, n + 1)
  {
    var x, A := FrameOf(c, t.holds, pos), ArcsOf(c);
    assert Path(x, A, [], a.to, 0, a.to, 0, 0);
    PathCons(x, A, [], a, 0, a.to, 0, 0);
    PathAppend(x, A, [], u, 0, r, 0, a.to, 0, n, 1);
  }

  /** Following a lookahead arc that holds stays within the step. */
  lemma LookStays(c: Cnfa, t: Text, S: set<nat>, co: int, pos: int, a: Arc)
    requires WellFormed(c) && a in ArcsOf(c) && a.kind == Lacon && t.holds(a.co, pos)
    requires a.from in Delta(c, t, S, co, pos)
    ensures a.to in Delta(c, t, S, co, pos)
  {
    ArcsBounded(c);
    var b, n: nat :| b in ArcsOf(c) && b.from in S && b.kind == Plain && b.co == co && LookPath(c, t, pos, b.to, a.from, n);
    LookSnoc(c, t, pos, b.to, a.from, n, a);
  }

  lemma ImageInDelta(c: Cnfa, t: Text, S: set<nat>, co: int, pos: int, q: nat)
    requires WellFormed(c) && Image(c, S, co, q)
    ensures q in Delta(c, t, S, co, pos)
  {
    ArcsBounded(c);
    assert LookPath(c, t, pos, q, q, 0);
  }

  /** Every lookahead arc out of `W` that holds at `pos` leads into `W`. */
  ghost predicate Closed(c: Cnfa, t: Text, pos: int, W: set<nat>) {
    forall a :: a in ArcsOf(c) && a.kind == Lacon && a.from in W && t.holds(a.co, pos) ==> a.to in W
  }

  lemma {:induction false} ClosedLook(c: Cnfa, t: Text, pos: int, W: set<nat>, u: nat, q: nat, n: nat)
    requires Closed(c, t, pos, W) && u in W && LookPath(c, t, pos, u, q, n)
    ensures q in W
    decreases n
  {
    if n > 0 {
      var a := PathFirst(FrameOf(c, t.holds, pos), ArcsOf(c), [], u, 0, q, 0, n);
      ClosedLook(c, t, pos, W, a.to, q, n - 1);
    }
  }

  /** A closed set between the image and the step is the step. */
  lemma ClosedIsDelta(c: Cnfa, t: Text, S: set<nat>, co: int, pos: int, W: set<nat>)
    requires Closed(c, t, pos, W) && W <= Delta(c, t, S, co, pos)
    requires forall q: nat :: Image(c, S, co, q) ==> q in W
    ensures W == Delta(c, t, S, co, pos)
  {
    forall q | q in Delta(c, t, S, co, pos) ensures q in W {
      var a, n: nat :| a in ArcsOf(c) && a.from in S && a.kind == Plain && a.co == co && LookPath(c, t, pos, a.to, q, n);
      assert Image(c, S, co, a.to);
      ClosedLook(c, t, pos, W, a.to, q, n);
    }
  }

  /** No lookahead arc leaves `W`. */
  ghost predicate Lookless(c: Cnfa, W: set<nat>) {
    forall i: nat, k: nat :: i in W && i < |c.outs| && k < |c.outs[i]| ==> c.outs[i][k].co <= c.ncolors
  }

  /** Without lookahead arcs the step is the same at every position. */
  lemma LooklessAnywhere(c: Cnfa, t: Text, S: set<nat>, co: int, W: set<nat>, pos: int)
    requires WellFormed(c) && Lookless(c, W)
    requires forall q: nat :: q in W <==> Image(c, S, co, q)
    ensures W == Delta(c, t, S, co, pos)
  {
    forall a | a in ArcsOf(c) && a.from in W ensures a.kind != Lacon {
      var k := ArcAt(c, a);
    }
    forall q | q in W ensures q in Delta(c, t, S, co, pos) { ImageInDelta(c, t, S, co, pos, q); }
    ClosedIsDelta(c, t, S, co, pos, W);
  }

  /** The two flags of a state set. */
  ghost predicate FlagsOf(c: Cnfa, W: set<nat>, isPost: bool, noProgress: bool) {
    && (isPost <==> c.post in W)
    && (noProgress <==> forall q :: q in W ==> q < |c.noprogress| && c.noprogress[q])
  }

  /** Follow the arcs of colour `co` out of `S`. */
  method FollowColor(c: Cnfa, S: set<nat>, co: int) returns (work: set<nat>, isPost: bool, noProgress: bool)
    requires WellFormed(c) && 0 <= co < c.ncolors
    ensures forall q: nat :: q in work <==> Image(c, S, co, q)
    ensures FlagsOf(c, work, isPost, noProgress) && forall q :: q in work ==> q < c.nstates
  {
    work, isPost, noProgress := {}, false, true;
    for i := 0 to c.nstates
      invariant forall q: nat :: q in work <==> Direct(c, S, co, i, 0, q)
      invariant FlagsOf(c, work, isPost, noProgress) && forall q :: q in work ==> q < c.nstates
    {
      if i in S {
        for k := 0 to |c.outs[i]|
          invariant forall q: nat :: q in work <==> Direct(c, S, co, i, k, q)
          invariant FlagsOf(c, work, isPost, noProgress) && forall q :: q in work ==> q < c.nstates
        {
          var ca := c.outs[i][k];
          ghost var before := work;
          if ca.co == co {
            work := work + {ca.to};
            isPost := isPost || ca.to == c.post;
            noProgress := noProgress && c.noprogress[ca.to];
          }
          assert forall q: nat :: Direct(c, S, co, i, k + 1, q) <==> Direct(c, S, co, i, k, q) || ca == CArc(co, q);
        }
      }
      ghost var i', k' := i + 1, if i in S then |c.outs[i]| else 0;
      assert forall q: nat :: Direct(c, S, co, i', 0, q) <==> Direct(c, S, co, i, k', q);
    }
    forall q: nat | true ensures q in work <==> Image(c, S, co, q) { DirectIsImage(c, S, co, q); }
  }

  /** All lookahead arcs of the states of `W` below `i`, and the first `k` of state `i`,
      that hold at `pos` lead into `W`. */
  ghost predicate ClosedUpTo(c: Cnfa, t: Text, pos: int, W: set<nat>, i: nat, k: nat) {
    forall r: nat, j: nat ::
      (r in W && r < |c.outs| && j < |c.outs[r]| && (r < i || (r == i && j < k))
       && c.outs[r][j].co > c.ncolors && t.holds(c.outs[r][j].co - c.ncolors, pos)) ==> c.outs[r][j].to in W
  }

  lemma ClosedAtEnd(c: Cnfa, t: Text, pos: int, W: set<nat>)
    requires WellFormed(c) && ClosedUpTo(c, t, pos, W, c.nstates, 0)
    ensures Closed(c, t, pos, W)
  {
    forall a | a in ArcsOf(c) && a.kind == Lacon && a.from in W && t.holds(a.co, pos) ensures a.to in W {
      var k := ArcAt(c, a);
    }
  }

  ghost predicate LooklessUpTo(c: Cnfa, W: set<nat>, i: nat, k: nat) {
    forall r: nat, j: nat :: r in W && r < |c.outs| && j < |c.outs[r]| && (r < i || (r == i && j < k)) ==>
      c.outs[r][j].co <= c.ncolors
  }

  lemma NoLaconsAtAll(c: Cnfa, W: set<nat>)
    requires WellFormed(c) && !c.hasLacons
    ensures Lookless(c, W) && forall t, pos :: Closed(c, t, pos, W)
  {
    forall i: nat, k: nat | i in W && i < |c.outs| && k < |c.outs[i]| ensures c.outs[i][k].co <= c.ncolors {
      ArcIn(c, i, k);
    }
  }

  /** How far a pass of the closure has come: through the states below `i` and the first
      `k` arcs of state `i`. `again` says that something was added, `saw` that a lookahead
      arc was met, in this pass or an earlier one. */
  ghost predicate Passing(c: Cnfa, t: Text, D: set<nat>, pos: int, work0: set<nat>, saw0: bool, i: nat, k: nat,
                          work: set<nat>, isPost: bool, noProgress: bool, saw: bool, again: bool) {
    && work0 <= work <= D && FlagsOf(c, work, isPost, noProgress) && (again <==> work != work0)
    && (!again ==> ClosedUpTo(c, t, pos, work, i, k)) && (saw0 ==> saw)
    && (!saw ==> !again && LooklessUpTo(c, work, i, k))
  }

  /** One arc out of a state in the set. */
  method PassArc(c: Cnfa, t: Text, ghost D: set<nat>, pos: int, ghost work0: set<nat>, ghost saw0: bool, i: nat, k: nat,
                 work1: set<nat>, isPost1: bool, noProgress1: bool, saw1: bool, again1: bool)
    returns (work: set<nat>, isPost: bool, noProgress: bool, saw: bool, again: bool)
    requires WellFormed(c) && i < c.nstates && k < |c.outs[i]| && i in work1 && forall q :: q in D ==> q < c.nstates
    requires forall a :: a in ArcsOf(c) && a.kind == Lacon && t.holds(a.co, pos) && a.from in D ==> a.to in D
    requires Passing(c, t, D, pos, work0, saw0, i, k, work1, isPost1, noProgress1, saw1, again1)
    ensures Passing(c, t, D, pos, work0, saw0, i, k + 1, work, isPost, noProgress, saw, again) && i in work
  {
    work, isPost, noProgress, saw, again := work1, isPost1, noProgress1, saw1, again1;
    var ca := c.outs[i][k];
    if ca.co <= c.ncolors {
      return;
    }
    saw := true;
    if ca.to in work {
      return;
    }
    if !t.holds(ca.co - c.ncolors, pos) {
      return;
    }
    ArcIn(c, i, k);
    work := work + {ca.to};
    again := true;
    isPost := isPost || ca.to == c.post;
    noProgress := noProgress && c.noprogress[ca.to];
  }

  /** One pass of the transitive closure over the lookahead constraints. */
  method ClosurePass(c: Cnfa, t: Text, ghost D: set<nat>, pos: int, work0: set<nat>, isPost0: bool, noProgress0: bool, saw0: bool)
    returns (work: set<nat>, isPost: bool, noProgress: bool, saw: bool, again: bool)
    requires WellFormed(c) && work0 <= D && FlagsOf(c, work0, isPost0, noProgress0)
    requires forall q :: q in D ==> q < c.nstates
    requires forall a :: a in ArcsOf(c) && a.kind == Lacon && t.holds(a.co, pos) && a.from in D ==> a.to in D
    ensures work0 <= work <= D && FlagsOf(c, work, isPost, noProgress)
    ensures again <==> work != work0
    ensures !again ==> Closed(c, t, pos, work)
    ensures saw0 ==> saw
    ensures !saw ==> !again && Lookless(c, work)
  {
    work, isPost, noProgress, saw, again := work0, isPost0, noProgress0, saw0, false;
    for i := 0 to c.nstates
      invariant Passing(c, t, D, pos, work0, saw0, i, 0, work, isPost, noProgress, saw, again)
    {
      if i in work {
        for k := 0 to |c.outs[i]|
          invariant i in work && Passing(c, t, D, pos, work0, saw0, i, k, work, isPost, noProgress, saw, again)
        {
          work, isPost, noProgress, saw, again :=
            PassArc(c, t, D, pos, work0, saw0, i, k, work, isPost, noProgress, saw, again);
        }
      }
    }
    if !again {
      ClosedAtEnd(c, t, pos, work);
    }
  }

  /** The state set that `S` goes to on `co`, with its two flags. `sawLook` says that
      lookahead constraints were met on the way, so that the result is good for
      this position only. */
  method Target(c: Cnfa, t: Text, S: set<nat>, co: int, pos: int)
    returns (work: set<nat>, isPost: bool, noProgress: bool, sawLook: bool)
    requires WellFormed(c) && 0 <= co < c.ncolors
    ensures work == Delta(c, t, S, co, pos) && FlagsOf(c, work, isPost, noProgress)
    ensures !sawLook ==> forall p :: work == Delta(c, t, S, co, p)
  {
    work, isPost, noProgress := FollowColor(c, S, co);
    ghost var image, D := work, Delta(c, t, S, co, pos);
    forall q | q in work ensures q in D { ImageInDelta(c, t, S, co, pos, q); }
    forall a | a in ArcsOf(c) && a.kind == Lacon && t.holds(a.co, pos) && a.from in D ensures a.to in D {
      LookStays(c, t, S, co, pos, a);
    }
    sawLook := false;
    if work != {} && c.hasLacons {
      work, isPost, noProgress, sawLook := CloseOver(c, t, D, pos, work, isPost, noProgress);
    } else if work != {} {
      NoLaconsAtAll(c, work);
    }
    ClosedIsDelta(c, t, S, co, pos, work);
    if !sawLook {
      forall p | true ensures work == Delta(c, t, S, co, p) { LooklessAnywhere(c, t, S, co, work, p); }
    }
  }

  /** Passes of the transitive closure, until one finds nothing. */
  method CloseOver(c: Cnfa, t: Text, ghost D: set<nat>, pos: int, work0: set<nat>, isPost0: bool, noProgress0: bool)
    returns (work: set<nat>, isPost: bool, noProgress: bool, sawLook: bool)
    requires WellFormed(c) && work0 <= D && FlagsOf(c, work0, isPost0, noProgress0)
    requires forall q :: q in D ==> q < c.nstates
    requires forall a :: a in ArcsOf(c) && a.kind == Lacon && t.holds(a.co, pos) && a.from in D ==> a.to in D
    ensures work0 <= work <= D && FlagsOf(c, work, isPost, noProgress) && Closed(c, t, pos, work)
    ensures !sawLook ==> work == work0 && Lookless(c, work)
  {
    work, isPost, noProgress, sawLook := work0, isPost0, noProgress0, false;
    var more := true;
    while more
      invariant work0 <= work <= D && FlagsOf(c, work, isPost, noProgress)
      invariant !more ==> Closed(c, t, pos, work)
      invariant !sawLook ==> work == work0
      invariant !sawLook && !more ==> Lookless(c, work)
      decreases D - work, more
    {
      work, isPost, noProgress, sawLook, more := ClosurePass(c, t, D, pos, work, isPost, noProgress, sawLook);
    }
  }
}

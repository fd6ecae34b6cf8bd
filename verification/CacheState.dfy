/** What the cache entries mean: state sets, transitions, and time stamps. */
module CacheState {
  import opened CompactNfa
  import opened Simulation
  import opened SubsetStep
  import opened CacheLinks

  /** An occupied entry: a non-empty set of states and the flags that go with it.
      Entry 0, and only entry 0, is the starter, which is locked. */
  ghost predicate GoodEntry(c: Cnfa, s: seq<SSet>, p: nat)
    requires p < |s|
  {
    && s[p].states != {} && (forall q :: q in s[p].states ==> q < c.nstates)
    && FlagsOf(c, s[p].states, s[p].post, s[p].noprogress)
    && (s[p].starter <==> p == 0) && (s[p].locked <==> p == 0)
    && (p == 0 ==> s[p].states == {c.pre})
  }

  /** `R` is the state set that `S` goes to on `co`, wherever that happens. */
  ghost predicate GoesTo(c: Cnfa, t: Text, S: set<nat>, co: int, R: set<nat>) {
    forall pos: int :: R == Delta(c, t, S, co, pos)
  }

  /** The occupied entries, leaving out the one being refilled if any, hold distinct
      sets, and their out-arcs lead to the entries of the right sets. */
  ghost predicate Coherent(c: Cnfa, t: Text, s: seq<SSet>, used: nat, hole: int)
    requires used <= |s| && Sized(s, c.ncolors)
  {
    && (forall p :: 0 <= p < used && p != hole ==> GoodEntry(c, s, p))
    && (forall p, q :: 0 <= p < q < used && p != hole && q != hole ==> s[p].states != s[q].states)
    && (forall p, co :: 0 <= p < used && p != hole && 0 <= co < c.ncolors && s[p].outs[co] != NONE ==>
          0 <= s[p].outs[co] < used && s[p].outs[co] != hole && GoesTo(c, t, s[p].states, co, s[s[p].outs[co]].states))
  }

  // ----- time stamps

  /** In the attempt that started at `b` and has come to `cur`, a stamp is the position
      of a state set that the entry holds. (The starter also gets the stamp `b`.) */
  ghost predicate GoodStamp(c: Cnfa, t: Text, s: seq<SSet>, b: nat, cur: int, p: nat)
    requires p < |s| && cur <= |t.col|
  {
    || s[p].lastseen == NONE
    || (p == 0 && s[p].lastseen == b)
    || (b <= s[p].lastseen <= cur && s[p].states == SetAt(c, t, b, s[p].lastseen))
  }

  ghost predicate Stamped(c: Cnfa, t: Text, s: seq<SSet>, used: nat, b: nat, cur: int, hole: int)
    requires used <= |s| && cur <= |t.col|
  {
    forall p :: 0 <= p < used && p != hole ==> GoodStamp(c, t, s, b, cur, p)
  }

  /** All states in `S` are pre or next to it. */
  ghost predicate Idle(c: Cnfa, S: set<nat>) { forall q :: q in S ==> q < |c.noprogress| && c.noprogress[q] }

  /** Some position of the attempt, `p`, had post in its set. */
  ghost predicate PostAt(c: Cnfa, t: Text, b: nat, cur: int, p: int)
    requires cur <= |t.col|
  {
    b <= p <= cur && c.post in SetAt(c, t, b, p)
  }

  ghost predicate IdleAt(c: Cnfa, t: Text, b: nat, cur: int, p: int)
    requires cur <= |t.col|
  {
    b <= p <= cur && SetAt(c, t, b, p) != {} && Idle(c, SetAt(c, t, b, p))
  }

  ghost predicate PostSeen(s: seq<SSet>, used: nat, hole: int, lastpost: int, p: int)
    requires used <= |s|
  {
    || lastpost >= p
    || (exists i :: 0 <= i < used && i != hole && s[i].post && s[i].lastseen >= p)
  }

  ghost predicate IdleSeen(s: seq<SSet>, used: nat, hole: int, lastnopr: int, p: int)
    requires used <= |s|
  {
    || lastnopr >= p
    || (exists i :: 0 <= i < used && i != hole && s[i].noprogress && s[i].lastseen >= p)
  }

  /** `lastpost` and `lastnopr` remember what replaced entries knew: with the stamps,
      no position with post in its set is later than all that is remembered, and
      what is remembered is true; likewise for sets without progress. The entry
      `hole` does not count; `post` and `idle` say that its stamp is still to come. */
  ghost predicate Remembered(c: Cnfa, t: Text, s: seq<SSet>, used: nat, b: nat, cur: int, hole: int, post: bool, idle: bool,
                             lastpost: int, lastnopr: int)
    requires used <= |s| && cur <= |t.col|
  {
    && (lastpost == NONE || PostAt(c, t, b, cur, lastpost))
    && (lastnopr == NONE || IdleAt(c, t, b, cur, lastnopr))
    && (forall p :: PostAt(c, t, b, cur, p) ==> post || PostSeen(s, used, hole, lastpost, p))
    && (forall p :: IdleAt(c, t, b, cur, p) ==> idle || IdleSeen(s, used, hole, lastnopr, p))
  }

  // ----- replacing an entry

  function Later(a: int, b: int): int { if a < b then b else a }

  /** Entry `p` means the same in both. */
  ghost predicate SameMeaning(s: seq<SSet>, r: seq<SSet>, p: nat)
    requires p < |s| && p < |r|
  {
    && r[p].states == s[p].states && r[p].lastseen == s[p].lastseen
    && r[p].post == s[p].post && r[p].noprogress == s[p].noprogress
  }

  /** The stamp of an entry that is taken out. */
  lemma EvictedStamp(c: Cnfa, t: Text, s: seq<SSet>, b: nat, cur: int, v: nat)
    requires v < |s| && cur <= |t.col| && v > 0
    requires GoodEntry(c, s, v) && GoodStamp(c, t, s, b, cur, v) && s[v].lastseen != NONE
    ensures s[v].post ==> PostAt(c, t, b, cur, s[v].lastseen)
    ensures s[v].noprogress ==> IdleAt(c, t, b, cur, s[v].lastseen)
  {
  }

  /** Taking an entry out folds its stamp into `lastpost` and `lastnopr`. */
  lemma EvictTracking(c: Cnfa, t: Text, s: seq<SSet>, r: seq<SSet>, used: nat, b: nat, cur: int, v: nat,
                      lastpost: int, lastnopr: int, lastpost': int, lastnopr': int)
    requires v < used <= |s| == |r| && cur <= |t.col| && v > 0 && NONE <= lastpost && NONE <= lastnopr
    requires GoodEntry(c, s, v)
    requires Stamped(c, t, s, used, b, cur, NONE) && Remembered(c, t, s, used, b, cur, NONE, false, false, lastpost, lastnopr)
    requires forall p :: 0 <= p < used && p != v ==> SameMeaning(s, r, p)
    requires lastpost' == if s[v].post then Later(lastpost, s[v].lastseen) else lastpost
    requires lastnopr' == if s[v].noprogress then Later(lastnopr, s[v].lastseen) else lastnopr
    ensures Stamped(c, t, r, used, b, cur, v) && Remembered(c, t, r, used, b, cur, v, false, false, lastpost', lastnopr')
  {
    assert GoodStamp(c, t, s, b, cur, v);
    if s[v].lastseen != NONE {
      EvictedStamp(c, t, s, b, cur, v);
    }
    forall p | 0 <= p < used && p != v ensures GoodStamp(c, t, r, b, cur, p) {
      assert GoodStamp(c, t, s, b, cur, p) && SameMeaning(s, r, p);
    }
    forall p | PostAt(c, t, b, cur, p) ensures PostSeen(r, used, v, lastpost', p) {
      assert PostSeen(s, used, NONE, lastpost, p);
      if lastpost < p {
        var i :| 0 <= i < used && s[i].post && s[i].lastseen >= p;
        assert i != v ==> SameMeaning(s, r, i);
      }
    }
    forall p | IdleAt(c, t, b, cur, p) ensures IdleSeen(r, used, v, lastnopr', p) {
      assert IdleSeen(s, used, NONE, lastnopr, p);
      if lastnopr < p {
        var i :| 0 <= i < used && s[i].noprogress && s[i].lastseen >= p;
        assert i != v ==> SameMeaning(s, r, i);
      }
    }
  }

  /** A fresh entry changes nothing that is remembered. */
  lemma FreshTracking(c: Cnfa, t: Text, s: seq<SSet>, r: seq<SSet>, v: nat, b: nat, cur: int, lastpost: int, lastnopr: int)
    requires v < |s| == |r| && cur <= |t.col|
    requires Stamped(c, t, s, v, b, cur, NONE) && Remembered(c, t, s, v, b, cur, NONE, false, false, lastpost, lastnopr)
    requires forall p :: 0 <= p < v ==> SameMeaning(s, r, p)
    ensures Stamped(c, t, r, v + 1, b, cur, v) && Remembered(c, t, r, v + 1, b, cur, v, false, false, lastpost, lastnopr)
  {
    forall p | 0 <= p < v ensures GoodStamp(c, t, r, b, cur, p) {
      assert GoodStamp(c, t, s, b, cur, p) && SameMeaning(s, r, p);
    }
    forall p | PostAt(c, t, b, cur, p) ensures PostSeen(r, v + 1, v, lastpost, p) {
      assert PostSeen(s, v, NONE, lastpost, p);
      if lastpost < p {
        var i :| 0 <= i < v && s[i].post && s[i].lastseen >= p;
        assert SameMeaning(s, r, i);
      }
    }
    forall p | IdleAt(c, t, b, cur, p) ensures IdleSeen(r, v + 1, v, lastnopr, p) {
      assert IdleSeen(s, v, NONE, lastnopr, p);
      if lastnopr < p {
        var i :| 0 <= i < v && s[i].noprogress && s[i].lastseen >= p;
        assert SameMeaning(s, r, i);
      }
    }
  }
}

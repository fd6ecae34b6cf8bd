/** The lazy DFA: a fixed-size cache of state sets, filled on demand. */
module LazyDfa {
  import opened CompactNfa
  import opened Simulation
  import opened SubsetStep
  import opened CacheLinks
  import opened CacheState
  import opened CacheRoom

  /** All but the links of each entry is the same. */
  ghost predicate SameData(s: seq<SSet>, r: seq<SSet>) {
    |s| == |r| && forall p :: 0 <= p < |s| ==> r[p] == s[p].(ins := r[p].ins, outs := r[p].outs, inchain := r[p].inchain)
  }

  function SetOut(e: SSet, co: nat, q: int, a: ArcP): SSet
    requires co < |e.outs| && co < |e.inchain|
  {
    e.(outs := e.outs[co := q], inchain := e.inchain[co := a])
  }

  /** `s`, but with `ap` at the head of v's in-chain. */
  function Headed(s: seq<SSet>, v: nat, ap: ArcP): seq<SSet>
    requires v < |s|
  {
    s[v := s[v].(ins := ap)]
  }

  /** `r` is `s` where the out-arcs to `v` may be gone. */
  ghost predicate OutsFewer(s: seq<SSet>, r: seq<SSet>, nc: nat, v: nat)
    requires |s| == |r| && Sized(s, nc) && Sized(r, nc)
  {
    forall p, co :: 0 <= p < |s| && 0 <= co < nc ==>
      r[p].outs[co] == s[p].outs[co] || (s[p].outs[co] == v && r[p].outs[co] == NONE)
  }

  lemma PopIsUnlinked(s: seq<SSet>, r: seq<SSet>, used: nat, nc: nat, chain: seq<ArcP>, v: nat, ap: ArcP)
    requires v < used <= |s| && ap.ArcP? && chain != [] && Sized(s, nc)
    requires ap == chain[0] && ap.ss < used && ap.co < nc && s[ap.ss].inchain[ap.co] == After(chain, 0)
    requires r == s[ap.ss := SetOut(s[ap.ss], ap.co, NONE, NoArc)]
    ensures Sized(Headed(s, v, ap), nc) && Sized(Headed(r, v, After(chain, 0)), nc)
    ensures Unlinked(Headed(s, v, ap), Headed(r, v, After(chain, 0)), nc, chain, v, 0)
  {
  }

  /** Taking the first link off v's in-chain. */
  lemma PopHead(s: seq<SSet>, r: seq<SSet>, used: nat, nc: nat, chains: seq<seq<ArcP>>, v: nat, ap: ArcP)
    requires v < used <= |s| && ap.ArcP? && Linked(Headed(s, v, ap), used, nc, chains) && Sized(s, nc)
    requires ap.ss < used && ap.co < nc
    requires r == s[ap.ss := SetOut(s[ap.ss], ap.co, NONE, NoArc)]
    ensures chains[v] != [] && Linked(Headed(r, v, s[ap.ss].inchain[ap.co]), used, nc, chains[v := chains[v][1..]])
    ensures s[ap.ss].outs[ap.co] == v
  {
    var h, chain := Headed(s, v, ap), chains[v];
    assert ChainOf(h, used, nc, chain, v);
    assert Threaded(h, used, nc, chain, v, 0);
    assert h[ap.ss].inchain == s[ap.ss].inchain && h[ap.ss].outs == s[ap.ss].outs;
    PopIsUnlinked(s, r, used, nc, chain, v, ap);
    assert chain[1..] == Dropped(chain, 0);
    UnlinkedLinked(h, Headed(r, v, After(chain, 0)), used, nc, chains, v, 0);
  }

  lemma HeadInBounds(s: seq<SSet>, used: nat, nc: nat, chains: seq<seq<ArcP>>, v: nat, ap: ArcP)
    requires v < used <= |s| && Linked(Headed(s, v, ap), used, nc, chains)
    ensures Sized(s, nc) && (ap == NoArc <==> chains[v] == [])
    ensures ap.ArcP? ==> ap.ss < used && ap.co < nc
  {
    var h := Headed(s, v, ap);
    assert ChainOf(h, used, nc, chains[v], v);
    if chains[v] != [] {
      assert Threaded(h, used, nc, chains[v], v, 0);
    }
    assert forall p :: 0 <= p < |s| ==> h[p].outs == s[p].outs && h[p].inchain == s[p].inchain;
  }

  /** `r` is `s` without the out-arc (v, i). */
  ghost predicate OutGone(s: seq<SSet>, r: seq<SSet>, nc: nat, v: nat, i: nat)
    requires |s| == |r|
  {
    Sized(s, nc) && Sized(r, nc) && forall p, co :: 0 <= p < |s| && 0 <= co < nc ==>
      r[p].outs[co] == if p == v && co == i then NONE else s[p].outs[co]
  }

  lemma LinkInBounds(s: seq<SSet>, used: nat, nc: nat, chains: seq<seq<ArcP>>, q: nat, k: nat)
    requires Linked(s, used, nc, chains) && q < used && k < |chains[q]|
    ensures chains[q][k].ArcP? && chains[q][k].ss < used && chains[q][k].co < nc
    ensures s[chains[q][k].ss].outs[chains[q][k].co] == q && s[chains[q][k].ss].inchain[chains[q][k].co] == After(chains[q], k)
  {
    assert ChainOf(s, used, nc, chains[q], q);
    assert Threaded(s, used, nc, chains[q], q, k);
  }

  /** Where out-arc (v, i) is in the in-chain of the entry it leads to. */
  lemma LinkIndex(s: seq<SSet>, used: nat, nc: nat, chains: seq<seq<ArcP>>, v: nat, i: nat) returns (k: nat)
    requires Linked(s, used, nc, chains) && v < used && i < nc && s[v].outs[i] >= 0
    ensures var q := s[v].outs[i];
      q < used && k < |chains[q]| && chains[q][k] == ArcP(v, i) && s[v].inchain[i] == After(chains[q], k)
      && (s[q].ins == ArcP(v, i) <==> k == 0)
  {
    var q := s[v].outs[i];
    k :| 0 <= k < |chains[q]| && chains[q][k] == ArcP(v, i);
    assert ChainOf(s, used, nc, chains[q], q);
    assert k > 0 ==> chains[q][0] != chains[q][k];
    LinkInBounds(s, used, nc, chains, q, k);
  }

  lemma SpliceFirst(s: seq<SSet>, r: seq<SSet>, used: nat, nc: nat, chains: seq<seq<ArcP>>, v: nat, i: nat, k: nat)
    requires Linked(s, used, nc, chains) && v < used && i < nc && 0 <= s[v].outs[i] < used && s[v].outs[i] != v
    requires k == 0 && chains[s[v].outs[i]] != [] && chains[s[v].outs[i]][0] == ArcP(v, i)
    requires r == s[s[v].outs[i] := s[s[v].outs[i]].(ins := s[v].inchain[i])][v := SetOut(s[v], i, NONE, NoArc)]
    ensures SameData(s, r) && OutGone(s, r, nc, v, i) && Unlinked(s, r, nc, chains[s[v].outs[i]], s[v].outs[i], k)
  {
    LinkInBounds(s, used, nc, chains, s[v].outs[i], 0);
  }

  lemma SpliceLater(s: seq<SSet>, r: seq<SSet>, nc: nat, chain: seq<ArcP>, q: nat, l: ArcP, v: nat, i: nat, k: nat)
    requires Sized(s, nc) && v < |s| && i < nc && q < |s|
    requires 0 < k < |chain| && chain[k] == ArcP(v, i) && s[v].inchain[i] == After(chain, k)
    requires l == chain[k - 1] && l.ArcP? && l.ss < |s| && l.co < nc && l != ArcP(v, i)
    requires var m := s[l.ss := s[l.ss].(inchain := s[l.ss].inchain[l.co := s[v].inchain[i]])];
      r == m[v := SetOut(m[v], i, NONE, NoArc)]
    ensures SameData(s, r) && OutGone(s, r, nc, v, i) && Unlinked(s, r, nc, chain, q, k)
  {
  }

  /** `r` is `s` without the first `i` out-arcs of entry `v`. */
  ghost predicate OutsOnly(s: seq<SSet>, r: seq<SSet>, nc: nat, v: nat, i: nat)
    requires |s| == |r|
  {
    Sized(s, nc) && Sized(r, nc) && forall p, co :: 0 <= p < |s| && 0 <= co < nc ==>
      r[p].outs[co] == if p == v && co < i then NONE else s[p].outs[co]
  }

  lemma NotSelf(s: seq<SSet>, used: nat, nc: nat, chains: seq<seq<ArcP>>, v: nat, i: nat)
    requires Linked(s, used, nc, chains) && v < used && chains[v] == [] && i < nc
    ensures s[v].outs[i] != v && NONE <= s[v].outs[i]
  {
  }

  /** A new entry before it is filled in. */
  function Blank(lastseen: int, nc: nat): SSet {
    SSet({}, false, false, false, false, NoArc, lastseen, seq(nc, _ => NONE), seq(nc, _ => NoArc))
  }

  lemma BlankLinked(s: seq<SSet>, v: nat, nc: nat, chains: seq<seq<ArcP>>)
    requires Linked(s, v, nc, chains) && v < |s|
    ensures Linked(s[v := Blank(s[v].lastseen, nc)], v + 1, nc, chains[v := []])
  {
    var r, ch := s[v := Blank(s[v].lastseen, nc)], chains[v := []];
    forall q | 0 <= q < v + 1 ensures ChainOf(r, v + 1, nc, ch[q], q) {
      if q < v {
        assert ChainOf(s, v, nc, chains[q], q);
        var v' := v + 1;
        forall k | 0 <= k < |ch[q]| ensures Threaded(r, v', nc, ch[q], q, k) {
          assert Threaded(s, v, nc, chains[q], q, k);
        }
      }
    }
  }

  /** Out-arcs may have gone, but none has changed. */
  ghost predicate OutsKept(s: seq<SSet>, r: seq<SSet>, nc: nat, n: nat)
    requires n <= |s| && n <= |r| && Sized(s, nc) && Sized(r, nc)
  {
    forall p, co :: 0 <= p < n && 0 <= co < nc ==> r[p].outs[co] == s[p].outs[co] || r[p].outs[co] == NONE
  }

  lemma FreshCoherent(c: Cnfa, t: Text, s: seq<SSet>, r: seq<SSet>, v: nat)
    requires v < |s| == |r| && Sized(s, c.ncolors) && Sized(r, c.ncolors) && Coherent(c, t, s, v, NONE)
    requires SameData(s[..v], r[..v])
    requires OutsKept(s, r, c.ncolors, v)
    ensures Coherent(c, t, r, v + 1, v)
  {
    forall p | 0 <= p < v ensures GoodEntry(c, r, p) && r[p].states == s[p].states {
      assert GoodEntry(c, s, p) && s[..v][p] == s[p] && r[..v][p] == r[p];
    }
  }

  lemma EvictCoherent(c: Cnfa, t: Text, s: seq<SSet>, r: seq<SSet>, used: nat, chains: seq<seq<ArcP>>, v: nat)
    requires v < used <= |s| == |r| && Sized(s, c.ncolors) && Sized(r, c.ncolors) && Coherent(c, t, s, used, NONE)
    requires Linked(r, used, c.ncolors, chains) && chains[v] == []
    requires SameData(s, r)
    requires OutsKept(s, r, c.ncolors, used)
    ensures Coherent(c, t, r, used, v)
  {
    forall p | 0 <= p < used ensures GoodEntry(c, r, p) {
      assert GoodEntry(c, s, p);
    }
  }

  lemma FillCoherent(c: Cnfa, t: Text, s: seq<SSet>, r: seq<SSet>, used: nat, v: nat)
    requires v < used <= |s| == |r| && Sized(s, c.ncolors) && Sized(r, c.ncolors) && Coherent(c, t, s, used, v)
    requires r == s[v := r[v]] && GoodEntry(c, r, v)
    requires forall p :: 0 <= p < used && p != v ==> s[p].states != r[v].states
    requires forall co :: 0 <= co < c.ncolors ==> r[v].outs[co] == NONE
    ensures Coherent(c, t, r, used, NONE)
  {
    forall p | 0 <= p < used && p != v ensures GoodEntry(c, r, p) {
      assert GoodEntry(c, s, p);
    }
  }

  lemma FillTracking(c: Cnfa, t: Text, s: seq<SSet>, r: seq<SSet>, used: nat, b: nat, cur: int, v: nat, lastpost: int, lastnopr: int)
    requires v < used <= |s| == |r| && cur <= |t.col| && r == s[v := r[v]]
    requires Stamped(c, t, s, used, b, cur, v) && Remembered(c, t, s, used, b, cur, v, false, false, lastpost, lastnopr)
    ensures Stamped(c, t, r, used, b, cur, v) && Remembered(c, t, r, used, b, cur, v, r[v].post, r[v].noprogress, lastpost, lastnopr)
  {
    forall p | 0 <= p < used && p != v ensures GoodStamp(c, t, r, b, cur, p) {
      assert GoodStamp(c, t, s, b, cur, p);
    }
    forall p | PostAt(c, t, b, cur, p) ensures PostSeen(r, used, v, lastpost, p) {
      assert PostSeen(s, used, v, lastpost, p);
      if lastpost < p {
        var i :| 0 <= i < used && i != v && s[i].post && s[i].lastseen >= p;
        assert r[i] == s[i];
      }
    }
    forall p | IdleAt(c, t, b, cur, p) ensures IdleSeen(r, used, v, lastnopr, p) {
      assert IdleSeen(s, used, v, lastnopr, p);
      if lastnopr < p {
        var i :| 0 <= i < used && i != v && s[i].noprogress && s[i].lastseen >= p;
        assert r[i] == s[i];
      }
    }
  }

  /** A hit needs no filling; its old stamp is as good as the one to come. */
  lemma HitTracking(c: Cnfa, t: Text, s: seq<SSet>, used: nat, b: nat, cur: int, v: nat, lastpost: int, lastnopr: int)
    requires v < used <= |s| && cur <= |t.col|
    requires Stamped(c, t, s, used, b, cur, NONE) && Remembered(c, t, s, used, b, cur, NONE, false, false, lastpost, lastnopr)
    ensures Stamped(c, t, s, used, b, cur, v) && Remembered(c, t, s, used, b, cur, v, s[v].post, s[v].noprogress, lastpost, lastnopr)
  {
    forall p | PostAt(c, t, b, cur, p) ensures s[v].post || PostSeen(s, used, v, lastpost, p) {
      assert PostSeen(s, used, NONE, lastpost, p);
    }
    forall p | IdleAt(c, t, b, cur, p) ensures s[v].noprogress || IdleSeen(s, used, v, lastnopr, p) {
      assert IdleSeen(s, used, NONE, lastnopr, p);
    }
  }

  lemma FillLinked(s: seq<SSet>, r: seq<SSet>, used: nat, nc: nat, chains: seq<seq<ArcP>>, v: nat)
    requires Linked(s, used, nc, chains) && v < used && |r| == |s|
    requires forall p :: 0 <= p < |s| ==> r[p].ins == s[p].ins && r[p].outs == s[p].outs && r[p].inchain == s[p].inchain
    ensures Linked(r, used, nc, chains)
  {
    forall q | 0 <= q < used ensures ChainOf(r, used, nc, chains[q], q) {
      assert ChainOf(s, used, nc, chains[q], q);
      forall k | 0 <= k < |chains[q]| ensures Threaded(r, used, nc, chains[q], q, k) {
        assert Threaded(s, used, nc, chains[q], q, k);
      }
    }
  }

  lemma LinkUpKeeps(c: Cnfa, t: Text, s: seq<SSet>, r: seq<SSet>, used: nat, chains: seq<seq<ArcP>>, b: nat, cur: int,
                    p: nat, co: nat, q: nat, lastpost: int, lastnopr: int)
    requires Linked(s, used, c.ncolors, chains) && Coherent(c, t, s, used, NONE) && cur <= |t.col|
    requires p < used && co < c.ncolors && q < used && s[p].outs[co] == NONE && GoesTo(c, t, s[p].states, co, s[q].states)
    requires var m := s[p := SetOut(s[p], co, q, s[q].ins)]; r == m[q := m[q].(ins := ArcP(p, co))]
    requires Stamped(c, t, s, used, b, cur, q) && Remembered(c, t, s, used, b, cur, q, s[q].post, s[q].noprogress, lastpost, lastnopr)
    ensures Linked(r, used, c.ncolors, chains[q := [ArcP(p, co)] + chains[q]]) && Coherent(c, t, r, used, NONE)
    ensures Stamped(c, t, r, used, b, cur, q) && Remembered(c, t, r, used, b, cur, q, r[q].post, r[q].noprogress, lastpost, lastnopr)
    ensures r[q].states == s[q].states
  {
    assert SameData(s, r) && Sized(r, c.ncolors);
    LinkedInLinked(s, r, used, c.ncolors, chains, p, co, q);
    LinkUpCoherent(c, t, s, r, used, p, co, q);
    SameDataTracking(c, t, s, r, used, b, cur, q, s[q].post, s[q].noprogress, lastpost, lastnopr);
  }

  lemma LinkUpCoherent(c: Cnfa, t: Text, s: seq<SSet>, r: seq<SSet>, used: nat, p: nat, co: nat, q: nat)
    requires used <= |s| && Sized(s, c.ncolors) && Coherent(c, t, s, used, NONE) && SameData(s, r) && Sized(r, c.ncolors)
    requires p < used && co < c.ncolors && q < used && GoesTo(c, t, s[p].states, co, s[q].states)
    requires forall p', co' :: 0 <= p' < |s| && 0 <= co' < c.ncolors ==>
      r[p'].outs[co'] == if p' == p && co' == co then q else s[p'].outs[co']
    ensures Coherent(c, t, r, used, NONE)
  {
    forall p | 0 <= p < used ensures GoodEntry(c, r, p) {
      assert GoodEntry(c, s, p);
    }
  }

  lemma SameDataTracking(c: Cnfa, t: Text, s: seq<SSet>, r: seq<SSet>, used: nat, b: nat, cur: int, hole: int, post: bool, idle: bool,
                         lastpost: int, lastnopr: int)
    requires used <= |s| && SameData(s, r) && cur <= |t.col|
    requires Stamped(c, t, s, used, b, cur, hole) && Remembered(c, t, s, used, b, cur, hole, post, idle, lastpost, lastnopr)
    ensures Stamped(c, t, r, used, b, cur, hole) && Remembered(c, t, r, used, b, cur, hole, post, idle, lastpost, lastnopr)
  {
    forall p | 0 <= p < used && p != hole ensures GoodStamp(c, t, r, b, cur, p) {
      assert GoodStamp(c, t, s, b, cur, p);
    }
    forall p | PostAt(c, t, b, cur, p) ensures post || PostSeen(r, used, hole, lastpost, p) {
      assert post || PostSeen(s, used, hole, lastpost, p);
    }
    forall p | IdleAt(c, t, b, cur, p) ensures idle || IdleSeen(r, used, hole, lastnopr, p) {
      assert idle || IdleSeen(s, used, hole, lastnopr, p);
    }
  }

  /** All but the stamp of each entry is the same. */
  ghost predicate Unstamped(s: seq<SSet>, r: seq<SSet>) {
    |s| == |r| && forall p :: 0 <= p < |s| ==> r[p] == s[p].(lastseen := r[p].lastseen)
  }

  lemma UnstampedCoherent(c: Cnfa, t: Text, s: seq<SSet>, r: seq<SSet>, used: nat)
    requires used <= |s| && Sized(s, c.ncolors) && Coherent(c, t, s, used, NONE) && Unstamped(s, r)
    ensures Sized(r, c.ncolors) && Coherent(c, t, r, used, NONE)
  {
    forall p | 0 <= p < used ensures GoodEntry(c, r, p) {
      assert GoodEntry(c, s, p);
    }
  }

  lemma StampCoherent(c: Cnfa, t: Text, s: seq<SSet>, r: seq<SSet>, used: nat, p: nat)
    requires used <= |s| && p < |s| && Sized(s, c.ncolors) && Coherent(c, t, s, used, NONE) && |r| == |s| && r == s[p := s[p].(lastseen := r[p].lastseen)]
    ensures Sized(r, c.ncolors) && Coherent(c, t, r, used, NONE)
  {
    UnstampedCoherent(c, t, s, r, used);
  }

  lemma StampTracking(c: Cnfa, t: Text, s: seq<SSet>, r: seq<SSet>, used: nat, b: nat, cp: int, p: nat, lastpost: int, lastnopr: int)
    requires p < used <= |s| && b <= cp <= |t.col| && r == s[p := s[p].(lastseen := cp)]
    requires GoodEntry(c, s, p) && s[p].states == SetAt(c, t, b, cp)
    requires Stamped(c, t, s, used, b, cp - 1, p) && Remembered(c, t, s, used, b, cp - 1, p, s[p].post, s[p].noprogress, lastpost, lastnopr)
    ensures Stamped(c, t, r, used, b, cp, NONE) && Remembered(c, t, r, used, b, cp, NONE, false, false, lastpost, lastnopr)
  {
    forall q | 0 <= q < used ensures GoodStamp(c, t, r, b, cp, q) {
      assert q != p ==> GoodStamp(c, t, s, b, cp - 1, q);
    }
    forall q | PostAt(c, t, b, cp, q) ensures PostSeen(r, used, NONE, lastpost, q) {
      if s[p].post {
        assert r[p].post && r[p].lastseen >= q;
      } else {
        assert PostAt(c, t, b, cp - 1, q) && PostSeen(s, used, p, lastpost, q);
        if lastpost < q {
          var i :| 0 <= i < used && i != p && s[i].post && s[i].lastseen >= q;
          assert r[i] == s[i];
        }
      }
    }
    forall q | IdleAt(c, t, b, cp, q) ensures IdleSeen(r, used, NONE, lastnopr, q) {
      if s[p].noprogress {
        assert r[p].noprogress && r[p].lastseen >= q;
      } else {
        assert IdleAt(c, t, b, cp - 1, q) && IdleSeen(s, used, p, lastnopr, q);
        if lastnopr < q {
          var i :| 0 <= i < used && i != p && s[i].noprogress && s[i].lastseen >= q;
          assert r[i] == s[i];
        }
      }
    }
  }

  /** Stamping an entry without post whose stamp does not count. */
  lemma StampHole(c: Cnfa, t: Text, s: seq<SSet>, r: seq<SSet>, used: nat, b: nat, cur: int, p: nat, lastpost: int, lastnopr: int)
    requires p < used <= |s| && cur <= |t.col| && r == s[p := s[p].(lastseen := cur)]
    requires Stamped(c, t, s, used, b, cur, p) && Remembered(c, t, s, used, b, cur, p, false, s[p].noprogress, lastpost, lastnopr)
    ensures Stamped(c, t, r, used, b, cur, p) && Remembered(c, t, r, used, b, cur, p, false, s[p].noprogress, lastpost, lastnopr)
  {
    forall q | 0 <= q < used && q != p ensures GoodStamp(c, t, r, b, cur, q) {
      assert GoodStamp(c, t, s, b, cur, q);
    }
    forall q | PostAt(c, t, b, cur, q) ensures PostSeen(r, used, p, lastpost, q) {
      assert PostSeen(s, used, p, lastpost, q);
      if lastpost < q {
        var i :| 0 <= i < used && i != p && s[i].post && s[i].lastseen >= q;
        assert r[i] == s[i];
      }
    }
    forall q | IdleAt(c, t, b, cur, q) ensures s[p].noprogress || IdleSeen(r, used, p, lastnopr, q) {
      assert s[p].noprogress || IdleSeen(s, used, p, lastnopr, q);
      if !s[p].noprogress && lastnopr < q {
        var i :| 0 <= i < used && i != p && s[i].noprogress && s[i].lastseen >= q;
        assert r[i] == s[i];
      }
    }
  }

  /** The last position with post in its set tells the longest match short of the end of
      the string. */
  lemma LastMatch(c: Cnfa, t: Text, start: nat, stop: nat, cp: nat, post: int)
    requires WellFormed(c) && start <= cp <= |t.col| && start <= stop <= |t.col|
    requires cp <= (if stop == |t.col| then stop else stop + 1)
    requires cp == (if stop == |t.col| then stop else stop + 1) || SetAt(c, t, start, cp + 1) == {}
    requires cp == |t.col| && stop == |t.col| ==> !Matches(c, t, start, stop)
    requires post == NONE || PostAt(c, t, start, cp, post)
    requires forall p :: PostAt(c, t, start, cp, p) ==> p <= post
    ensures post != NONE ==> start <= post - 1 <= stop && Matches(c, t, start, post - 1)
    ensures forall e :: start <= e <= stop && (post == NONE || post - 1 < e) ==> !Matches(c, t, start, e)
  {
    if post != NONE {
      FirstSetLacksPost(c, t, start);
      MatchInside(c, t, start, post - 1);
    }
    forall e | start <= e <= stop && (post == NONE || post - 1 < e) ensures !Matches(c, t, start, e) {
      if e < cp {
        MatchInside(c, t, start, e);
        assert c.post in SetAt(c, t, start, e + 1) ==> PostAt(c, t, start, cp, e + 1);
      } else if !(cp == |t.col| && stop == |t.col|) {
        NothingMatches(c, t, start, cp + 1);
      }
    }
  }

  lemma ReachedStop(c: Cnfa, t: Text, start: nat, stop: nat, cp: nat)
    requires WellFormed(c) && start <= cp <= |t.col| && start <= stop <= |t.col| && SetAt(c, t, start, cp) != {}
    requires cp <= (if stop == |t.col| then stop else stop + 1)
    requires cp == (if stop == |t.col| then stop else stop + 1) || SetAt(c, t, start, cp + 1) == {}
    ensures (cp == |t.col| && stop == |t.col|) <==> (stop == |t.col| && SetAt(c, t, start, stop) != {})
  {
    if cp < |t.col| && stop == |t.col| {
      EmptyForGood(c, t, start, cp + 1, stop);
    }
  }

  /** No set at a position after `start`, from `lo` on and before `hi`, has post. */
  ghost predicate NoPostIn(c: Cnfa, t: Text, start: nat, lo: int, hi: int)
    requires hi <= |t.col| + 1
    decreases hi
  {
    hi > start + 1 ==> NoPostIn(c, t, start, lo, hi - 1) && (lo <= hi - 1 ==> c.post !in SetAt(c, t, start, hi - 1))
  }

  lemma {:induction false} NoMatchYet(c: Cnfa, t: Text, start: nat, min: nat, hi: int)
    requires WellFormed(c) && start <= min && hi <= |t.col| + 1
    requires NoPostIn(c, t, start, if min == |t.col| then min else min + 1, hi)
    ensures forall e :: min <= e < |t.col| && e + 1 < hi ==> !Matches(c, t, start, e)
    decreases hi
  {
    if hi > start + 1 {
      NoMatchYet(c, t, start, min, hi - 1);
      if hi - 2 >= min && hi - 2 < |t.col| {
        MatchInside(c, t, start, hi - 2);
      }
    }
  }

  lemma StuckMeansNoMatch(c: Cnfa, t: Text, start: nat, min: nat, cp: nat)
    requires WellFormed(c) && start <= min <= |t.col| && start <= cp < |t.col| && SetAt(c, t, start, cp + 1) == {}
    requires NoPostIn(c, t, start, if min == |t.col| then min else min + 1, cp + 1)
    ensures forall e :: min <= e <= |t.col| ==> !Matches(c, t, start, e)
  {
    NoMatchYet(c, t, start, min, cp + 1);
    NothingMatches(c, t, start, cp + 1);
  }

  /** A set with post is not without progress: post is not next to pre. */
  lemma PostIsNotIdle(c: Cnfa, t: Text, b: nat, cp: nat, e: int)
    requires WellFormed(c) && b <= cp <= |t.col| && c.post in SetAt(c, t, b, cp) && e == cp - 1
    ensures forall p :: IdleAt(c, t, b, cp, p) <==> IdleAt(c, t, b, e, p)
  {
  }

  class Dfa {
    const c: Cnfa
    const t: Text
    const nssets: nat
    const ssets: array<SSet>
    var nssused: nat
    var lastpost: int
    var lastnopr: int
    var search: nat
    /** For each entry, its in-chain spelt out. */
    ghost var chains: seq<seq<ArcP>>

    ghost predicate Wired()
      reads this, ssets
    {
      ssets.Length == nssets && Linked(ssets[..], nssused, c.ncolors, chains)
    }

    /** Take entry `v` out of everybody's out-arcs, its own included. */
    method ClearIns(v: nat)
      requires Wired() && v < nssused
      modifies ssets, this`chains
      ensures Wired() && chains == old(chains)[v := []] && SameData(old(ssets[..]), ssets[..])
      ensures OutsFewer(old(ssets[..]), ssets[..], c.ncolors, v)
    {
      ghost var s0, ch0 := ssets[..], chains;
      var ap := ssets[v].ins;
      assert Headed(s0, v, ap) == s0;
      while ap != NoArc
        invariant v < nssused <= nssets && ssets.Length == nssets && |chains| == nssets == |ch0|
        invariant chains == ch0[v := chains[v]]
        invariant Linked(Headed(ssets[..], v, ap), nssused, c.ncolors, chains)
        invariant Sized(ssets[..], c.ncolors) && SameData(s0, ssets[..]) && OutsFewer(s0, ssets[..], c.ncolors, v)
        decreases |chains[v]|
      {
        ap := PopIn(v, ap);
      }
      HeadInBounds(ssets[..], nssused, c.ncolors, chains, v, NoArc);
      ghost var s := ssets[..];
      ssets[v] := ssets[v].(ins := NoArc);
      assert ssets[..] == Headed(s, v, NoArc);
    }

    /** Take the first link `ap` off the in-chain of `v`. */
    method PopIn(v: nat, ap: ArcP) returns (next: ArcP)
      requires v < nssused && ssets.Length == nssets && |chains| == nssets && nssused <= nssets && ap != NoArc
      requires Linked(Headed(ssets[..], v, ap), nssused, c.ncolors, chains) && Sized(ssets[..], c.ncolors)
      modifies ssets, this`chains
      ensures |chains| == nssets && chains == old(chains)[v := chains[v]] && |chains[v]| < |old(chains)[v]|
      ensures Linked(Headed(ssets[..], v, next), nssused, c.ncolors, chains)
      ensures Sized(ssets[..], c.ncolors) && SameData(old(ssets[..]), ssets[..]) && OutsFewer(old(ssets[..]), ssets[..], c.ncolors, v)
    {
      ghost var s := ssets[..];
      HeadInBounds(s, nssused, c.ncolors, chains, v, ap);
      var p, co := ap.ss, ap.co;
      next := ssets[p].inchain[co];
      ssets[p] := SetOut(ssets[p], co, NONE, NoArc);
      assert ssets[..] == s[p := SetOut(s[p], co, NONE, NoArc)];
      PopHead(s, ssets[..], nssused, c.ncolors, chains, v, ap);
      chains := chains[v := chains[v][1..]];
    }

    /** The link just before link `l` in q's in-chain. */
    method LinkBefore(q: nat, l: ArcP, ghost k: nat) returns (lastap: ArcP)
      requires Wired() && q < nssused && 0 < k < |chains[q]| && chains[q][k] == l
      ensures lastap == chains[q][k - 1]
    {
      ghost var s := ssets[..];
      assert ChainOf(s, nssused, c.ncolors, chains[q], q);
      var ap := ssets[q].ins;
      lastap := ap;
      ghost var j := 0;
      while ap != l
        invariant j <= k && ap == chains[q][j]
        invariant j > 0 ==> lastap == chains[q][j - 1]
        decreases k - j
      {
        assert Threaded(s, nssused, c.ncolors, chains[q], q, j);
        lastap, ap, j := ap, ssets[ap.ss].inchain[ap.co], j + 1;
      }
    }

    /** Take out-arc `i` of entry `v`, which leads to another entry, off that
        entry's in-chain. */
    method Unlink(v: nat, i: nat)
      requires Wired() && v < nssused && i < c.ncolors && Sized(ssets[..], c.ncolors)
      requires ssets[v].outs[i] >= 0 && ssets[v].outs[i] != v
      modifies ssets, this`chains
      ensures Wired() && chains[v] == old(chains)[v] && SameData(old(ssets[..]), ssets[..])
      ensures OutGone(old(ssets[..]), ssets[..], c.ncolors, v, i)
    {
      ghost var s := ssets[..];
      var q := ssets[v].outs[i];
      ghost var k := LinkIndex(s, nssused, c.ncolors, chains, v, i);
      if ssets[q].ins == ArcP(v, i) {
        ssets[q] := ssets[q].(ins := ssets[v].inchain[i]);
        ssets[v] := SetOut(ssets[v], i, NONE, NoArc);
        SpliceFirst(s, ssets[..], nssused, c.ncolors, chains, v, i, k);
      } else {
        var l := LinkBefore(q, ArcP(v, i), k);
        LinkInBounds(s, nssused, c.ncolors, chains, q, k - 1);
        ssets[l.ss] := ssets[l.ss].(inchain := ssets[l.ss].inchain[l.co := ssets[v].inchain[i]]);
        ssets[v] := SetOut(ssets[v], i, NONE, NoArc);
        SpliceLater(s, ssets[..], c.ncolors, chains[q], q, l, v, i, k);
      }
      UnlinkedLinked(s, ssets[..], nssused, c.ncolors, chains, q, k);
      chains := chains[q := Dropped(chains[q], k)];
    }

    /** Take entry `v`, which nothing leads to, off all in-chains. */
    method ClearOuts(v: nat)
      requires Wired() && v < nssused && chains[v] == []
      modifies ssets, this`chains
      ensures Wired() && chains[v] == [] && SameData(old(ssets[..]), ssets[..])
      ensures OutsOnly(old(ssets[..]), ssets[..], c.ncolors, v, c.ncolors)
    {
      ghost var s := ssets[..];
      for i := 0 to c.ncolors
        invariant Wired() && chains[v] == [] && SameData(s, ssets[..])
        invariant OutsOnly(s, ssets[..], c.ncolors, v, i)
      {
        NotSelf(ssets[..], nssused, c.ncolors, chains, v, i);
        if ssets[v].outs[i] != NONE {
          Unlink(v, i);
        }
      }
    }

    /** Look for an entry that may be replaced: not locked, and not seen lately. The
        search goes on from where it last ended, and wraps around once. */
    method FindVictim(ancient: int) returns (v: nat)
      requires ssets.Length == nssets && search <= nssets
      requires exists i :: 0 <= i < nssets && Evictable(ssets[i], ancient)
      modifies this`search
      ensures v < nssets && Evictable(ssets[v], ancient) && search == v + 1
    {
      v := search;
      while v < nssets && !Evictable(ssets[v], ancient)
        invariant search <= v <= nssets && forall j :: search <= j < v ==> !Evictable(ssets[j], ancient)
      {
        v := v + 1;
      }
      if v == nssets {
        v := 0;
        while !Evictable(ssets[v], ancient)
          invariant 0 <= v < search && forall j :: 0 <= j < v || search <= j < nssets ==> !Evictable(ssets[j], ancient)
          decreases search - v
        {
          v := v + 1;
        }
      }
      search := v + 1;
    }

    /** Pick the next entry to be used: an unused one while there are any. */
    method PickNext(cp: int, start: int) returns (v: nat)
      requires Wired() && search <= nssets
      requires nssused == nssets ==> exists i :: 0 <= i < nssets && Evictable(ssets[i], Ancient(cp, start, nssets))
      modifies this`search, this`nssused, this`chains, ssets
      ensures Wired() && search <= nssets && v < nssused
      ensures old(nssused) < nssets ==> v == old(nssused) && nssused == v + 1 && chains[v] == []
      ensures old(nssused) < nssets ==> ssets[..] == old(ssets[..])[v := Blank(old(ssets[v].lastseen), c.ncolors)]
      ensures old(nssused) == nssets ==> Evictable(ssets[v], Ancient(cp, start, nssets))
      ensures old(nssused) == nssets ==> nssused == nssets && ssets[..] == old(ssets[..])
    {
      if nssused < nssets {
        v := nssused;
        ghost var s := ssets[..];
        nssused := nssused + 1;
        ssets[v] := Blank(ssets[v].lastseen, c.ncolors);
        assert ssets[..] == s[v := Blank(s[v].lastseen, c.ncolors)];
        BlankLinked(s, v, c.ncolors, chains);
        chains := chains[v := []];
      } else {
        v := FindVictim(Ancient(cp, start, nssets));
      }
    }

    /** What holds between two steps of the attempt that started at `b` and has come
        to `cur`. */
    ghost predicate Ready(b: nat, cur: int)
      reads this, ssets
    {
      && Wired() && WellFormed(c) && BigEnough(c, t, nssets) && search <= nssets
      && cur <= |t.col| && NONE <= lastpost && NONE <= lastnopr
      && Coherent(c, t, ssets[..], nssused, NONE)
      && Stamped(c, t, ssets[..], nssused, b, cur, NONE)
      && Remembered(c, t, ssets[..], nssused, b, cur, NONE, false, false, lastpost, lastnopr)
    }

    /** Entry `v` has been emptied and is about to be filled. */
    ghost predicate Vacant(b: nat, cur: int, v: nat)
      reads this, ssets
    {
      && Wired() && WellFormed(c) && BigEnough(c, t, nssets) && search <= nssets && v < nssused && chains[v] == []
      && cur <= |t.col| && NONE <= lastpost && NONE <= lastnopr
      && Coherent(c, t, ssets[..], nssused, v)
      && Stamped(c, t, ssets[..], nssused, b, cur, v)
      && Remembered(c, t, ssets[..], nssused, b, cur, v, false, false, lastpost, lastnopr)
      && forall co :: 0 <= co < c.ncolors ==> ssets[v].outs[co] == NONE
    }

    /** Take entry `v` off all chains. */
    method Isolate(v: nat)
      requires Wired() && v < nssused
      modifies ssets, this`chains
      ensures Wired() && chains[v] == [] && SameData(old(ssets[..]), ssets[..])
      ensures Sized(old(ssets[..]), c.ncolors) && OutsKept(old(ssets[..]), ssets[..], c.ncolors, nssets)
      ensures forall co :: 0 <= co < c.ncolors ==> ssets[v].outs[co] == NONE
    {
      ClearIns(v);
      ClearOuts(v);
    }

    /** If entry `v` was a success or had made no progress, remember where. */
    method Fold(v: nat)
      requires ssets.Length == nssets && v < nssets
      modifies this`lastpost, this`lastnopr
      ensures NONE <= old(lastpost) && (ssets[v].post ==> NONE <= ssets[v].lastseen) ==>
        lastpost == if ssets[v].post then Later(old(lastpost), ssets[v].lastseen) else old(lastpost)
      ensures NONE <= old(lastnopr) && (ssets[v].noprogress ==> NONE <= ssets[v].lastseen) ==>
        lastnopr == if ssets[v].noprogress then Later(old(lastnopr), ssets[v].lastseen) else old(lastnopr)
    {
      if ssets[v].post && ssets[v].lastseen != lastpost && (lastpost == NONE || lastpost < ssets[v].lastseen) {
        lastpost := ssets[v].lastseen;
      }
      if ssets[v].noprogress && ssets[v].lastseen != lastnopr && (lastnopr == NONE || lastnopr < ssets[v].lastseen) {
        lastnopr := ssets[v].lastseen;
      }
    }

    /** Get an empty entry: an unused one, or one that was not seen lately. Its stamp
        is folded into `lastpost` and `lastnopr`. */
    method GetVacant(cp: int, start: int, ghost b: nat, ghost cur: int) returns (v: nat)
      requires Ready(b, cur)
      requires nssused == nssets ==> exists i :: 0 <= i < nssets && Evictable(ssets[i], Ancient(cp, start, nssets))
      modifies this`search, this`nssused, this`chains, this`lastpost, this`lastnopr, ssets
      ensures Vacant(b, cur, v) && (old(nssused) > 0 ==> v > 0) && Sized(old(ssets[..]), c.ncolors)
      ensures old(nssused) < nssets ==> v == old(nssused)
      ensures old(nssused) == nssets ==> Evictable(old(ssets[v]), Ancient(cp, start, nssets))
      ensures nssused == if old(nssused) < nssets then v + 1 else nssets
      ensures forall p :: 0 <= p < old(nssused) && p != v ==> ssets[p].states == old(ssets[p].states)
      ensures OutsKept(old(ssets[..]), ssets[..], c.ncolors, old(nssused))
    {
      ghost var s0, lp, ln := ssets[..], lastpost, lastnopr;
      v := PickNext(cp, start);
      assert old(nssused) == nssets ==> GoodStamp(c, t, s0, b, cur, v) || v == 0;
      assert old(nssused) > 0 ==> GoodEntry(c, s0, 0);
      Isolate(v);
      Fold(v);
      if old(nssused) < nssets {
        FreshTracking(c, t, s0, ssets[..], v, b, cur, lp, ln);
        FreshCoherent(c, t, s0, ssets[..], v);
      } else {
        assert GoodEntry(c, s0, v);
        EvictTracking(c, t, s0, ssets[..], nssused, b, cur, v, lp, ln, lastpost, lastnopr);
        EvictCoherent(c, t, s0, ssets[..], nssused, chains, v);
      }
    }

    /** The entry that was got back by a miss, not stamped yet. */
    ghost predicate Pending(b: nat, cur: int, r: nat)
      reads this, ssets
    {
      && Wired() && WellFormed(c) && BigEnough(c, t, nssets) && search <= nssets && r < nssused
      && cur <= |t.col| && NONE <= lastpost && NONE <= lastnopr
      && Coherent(c, t, ssets[..], nssused, NONE)
      && Stamped(c, t, ssets[..], nssused, b, cur, r)
      && Remembered(c, t, ssets[..], nssused, b, cur, r, ssets[r].post, ssets[r].noprogress, lastpost, lastnopr)
    }

    /** Look a state set up in the cache. */
    method FindSet(work: set<nat>) returns (i: nat)
      requires ssets.Length == nssets && nssused <= nssets
      ensures i <= nssused
      ensures i < nssused ==> ssets[i].states == work
      ensures forall j :: 0 <= j < i ==> ssets[j].states != work
    {
      i := 0;
      while i < nssused
        invariant i <= nssused && forall j :: 0 <= j < i ==> ssets[j].states != work
      {
        if ssets[i].states == work {
          return;
        }
        i := i + 1;
      }
    }

    /** Fill an empty entry. */
    method Fill(v: nat, work: set<nat>, isPost: bool, noProgress: bool, starter: bool, ghost b: nat, ghost cur: int)
      requires Vacant(b, cur, v) && (starter <==> v == 0) && (starter ==> work == {c.pre})
      requires work != {} && (forall q :: q in work ==> q < c.nstates) && FlagsOf(c, work, isPost, noProgress)
      requires forall p :: 0 <= p < nssused && p != v ==> ssets[p].states != work
      modifies ssets
      ensures Pending(b, cur, v) && ssets[v].states == work
      ensures forall p :: 0 <= p < nssused && p != v ==> ssets[p] == old(ssets[p])
      ensures forall co :: 0 <= co < c.ncolors ==> ssets[v].outs[co] == NONE
    {
      ghost var s := ssets[..];
      ssets[v] := ssets[v].(states := work, starter := starter, locked := starter, post := isPost, noprogress := noProgress);
      ghost var r := ssets[..];
      assert r == s[v := r[v]];
      FillCoherent(c, t, s, r, nssused, v);
      FillTracking(c, t, s, r, nssused, b, cur, v, lastpost, lastnopr);
      FillLinked(s, r, nssused, c.ncolors, chains, v);
    }

    /** Note that out-arc (p, co) leads to entry `q`. */
    method LinkUp(p: nat, co: nat, q: nat, ghost b: nat, ghost cur: int)
      requires Pending(b, cur, q) && p < nssused && co < c.ncolors && Sized(ssets[..], c.ncolors)
      requires ssets[p].outs[co] == NONE && GoesTo(c, t, ssets[p].states, co, ssets[q].states)
      modifies ssets, this`chains
      ensures Pending(b, cur, q) && ssets[q].states == old(ssets[q].states)
    {
      ghost var s := ssets[..];
      ssets[p] := SetOut(ssets[p], co, q, ssets[q].ins);
      ssets[q] := ssets[q].(ins := ArcP(p, co));
      LinkUpKeeps(c, t, s, ssets[..], nssused, chains, b, cur, p, co, q, lastpost, lastnopr);
      chains := chains[q := [ArcP(p, co)] + chains[q]];
    }

    /** Make an entry for a state set that is not in the cache, leaving entry `css`,
        where we are, alone. */
    method NewEntry(css: nat, co: int, work: set<nat>, isPost: bool, noProgress: bool, cp: int, start: int, ghost cur: int) returns (v: nat)
      requires start >= 0 && Ready(start, cur) && css < nssused && 0 <= co < c.ncolors && Sized(ssets[..], c.ncolors)
      requires cur <= cp <= cur + 1 && start <= cp
      requires !Evictable(ssets[css], Ancient(cp, start, nssets)) && ssets[css].outs[co] == NONE
      requires work != {} && (forall q :: q in work ==> q < c.nstates) && FlagsOf(c, work, isPost, noProgress)
      requires forall p :: 0 <= p < nssused ==> ssets[p].states != work
      modifies this`search, this`nssused, this`chains, this`lastpost, this`lastnopr, ssets
      ensures v < nssused && Pending(start, cur, v) && ssets[v].states == work
      ensures css < nssused && Sized(ssets[..], c.ncolors)
      ensures ssets[css].states == old(ssets[css].states) && ssets[css].outs[co] == NONE
    {
      if nssused == nssets {
        RoomLeft(c, t, ssets[..], nssets, start, cur, cp);
      }
      v := GetVacant(cp, start, start, cur);
      assert v != css;
      Fill(v, work, isPost, noProgress, false, start, cur);
    }

    /** An out-arc that is there leads to the entry of the next state set. */
    lemma HitRight(css: nat, co: int, cp: int, start: nat, cur: int)
      requires Ready(start, cur) && css < nssused && 0 <= co < c.ncolors && Sized(ssets[..], c.ncolors)
      requires ssets[css].outs[co] != NONE
      ensures 0 <= ssets[css].outs[co] < nssused
      ensures ssets[ssets[css].outs[co]].states == Delta(c, t, ssets[css].states, co, cp) != {}
    {
      ghost var s := ssets[..];
      assert GoesTo(c, t, s[css].states, co, s[s[css].outs[co]].states) && GoodEntry(c, s, s[css].outs[co]);
    }

    /** Handle a cache miss: get from entry `css` over colour `co`, at position `cp`, to
        the entry of the next state set, making one if need be; NONE if that set is
        empty. The caller is yet to stamp the entry. */
    method Miss(css: nat, co: int, cp: int, start: int, ghost cur: int) returns (p: int)
      requires start >= 0 && Ready(start, cur) && css < nssused && 0 <= co < c.ncolors
      requires cur <= cp <= cur + 1 && start <= cp
      requires !Evictable(ssets[css], Ancient(cp, start, nssets))
      modifies this`search, this`nssused, this`chains, this`lastpost, this`lastnopr, ssets
      ensures p == NONE <==> Delta(c, t, old(ssets[css].states), co, cp) == {}
      ensures p == NONE ==> ssets[..] == old(ssets[..]) && nssused == old(nssused) && Ready(start, cur)
      ensures p != NONE ==> 0 <= p < nssused && Pending(start, cur, p)
      ensures p != NONE ==> ssets[p].states == Delta(c, t, old(ssets[css].states), co, cp)
    {
      if ssets[css].outs[co] != NONE {
        p := ssets[css].outs[co];
        HitRight(css, co, cp, start, cur);
        HitTracking(c, t, ssets[..], nssused, start, cur, p, lastpost, lastnopr);
        return;
      }
      var work, isPost, noProgress, sawLook := Target(c, t, ssets[css].states, co, cp);
      if work == {} {
        return NONE;
      }
      var i := FindSet(work);
      if i < nssused {
        p := i;
        HitTracking(c, t, ssets[..], nssused, start, cur, p, lastpost, lastnopr);
      } else {
        p := NewEntry(css, co, work, isPost, noProgress, cp, start, cur);
      }
      if !sawLook {
        LinkUp(css, co, p, start, cur);
      }
    }

    // ----- attempts

    /** What holds between attempts. */
    ghost predicate Valid()
      reads this, ssets
    {
      && Wired() && WellFormed(c) && BigEnough(c, t, nssets) && search <= nssets && Colored(c, t)
      && Coherent(c, t, ssets[..], nssused, NONE)
      && (nssused == 0 ==> lastpost == NONE && lastnopr == NONE)
    }

    /** An empty cache of `n` entries. */
    constructor (c: Cnfa, t: Text, n: nat)
      requires WellFormed(c) && BigEnough(c, t, n) && Colored(c, t)
      ensures Valid() && this.c == c && this.t == t && nssets == n && fresh(ssets)
    {
      this.c, this.t, nssets := c, t, n;
      ssets := new SSet[n](_ => Blank(NONE, c.ncolors));
      nssused, lastpost, lastnopr, search := 0, NONE, NONE, 0;
      chains := seq(n, _ => []);
      new;
      assert Sized(ssets[..], c.ncolors);
    }

    /** Stamp entry `p`, just got back from a miss or hit, with the new position. */
    method Stamp(p: nat, cp: int, ghost b: nat)
      requires Pending(b, cp - 1, p) && b <= cp <= |t.col| && ssets[p].states == SetAt(c, t, b, cp)
      modifies ssets
      ensures Ready(b, cp) && ssets[p].lastseen == cp && ssets[p].states == SetAt(c, t, b, cp) && ssets[p].post == old(ssets[p].post)
    {
      ghost var s := ssets[..];
      assert GoodEntry(c, s, p);
      ssets[p] := ssets[p].(lastseen := cp);
      assert ssets[..] == s[p := s[p].(lastseen := cp)];
      StampCoherent(c, t, s, ssets[..], nssused, p);
      FillLinked(s, ssets[..], nssused, c.ncolors, chains, p);
      StampTracking(c, t, s, ssets[..], nssused, b, cp, p, lastpost, lastnopr);
    }

    /** Forget all stamps but one. */
    method ClearStamps(ss: nat, start: nat)
      requires Wired() && WellFormed(c) && BigEnough(c, t, nssets) && search <= nssets && start <= |t.col|
      requires Coherent(c, t, ssets[..], nssused, NONE) && ss == 0 < nssused
      modifies ssets, this`lastpost, this`lastnopr
      ensures Ready(start, start - 1) && ssets[0] == old(ssets[0]).(lastseen := start)
    {
      ghost var s := ssets[..];
      for i := 0 to nssused
        invariant ssets.Length == nssets && nssused <= nssets && Unstamped(s, ssets[..])
        invariant forall j :: 0 <= j < i ==> ssets[j].lastseen == NONE
      {
        ssets[i] := ssets[i].(lastseen := NONE);
      }
      ssets[ss] := ssets[ss].(lastseen := start);
      lastpost, lastnopr := NONE, NONE;
      UnstampedCoherent(c, t, s, ssets[..], nssused);
      FillLinked(s, ssets[..], nssused, c.ncolors, chains, 0);
    }

    lemma StarterFirst()
      requires Valid()
      ensures nssused > 0 ==> ssets[0].starter
    {
      if nssused > 0 {
        assert GoodEntry(c, ssets[..], 0);
      }
    }

    /** Get ready for an attempt at `start`: the starter is made unless it is there, all
        stamps are cleared, and the starter is stamped (maybe untruly). */
    method Initialize(start: nat) returns (ss: nat)
      requires Valid() && start <= |t.col|
      modifies this`search, this`nssused, this`chains, this`lastpost, this`lastnopr, ssets
      ensures Ready(start, start - 1) && ss == 0 && nssused > 0 && ssets[0].states == {c.pre} && ssets[0].locked
    {
      StarterFirst();
      if nssused > 0 && ssets[0].starter {
        ss := 0;
      } else {
        ss := GetVacant(start, start, start, start - 1);
        Fill(ss, {c.pre}, false, true, true, start, start - 1);
      }
      assert GoodEntry(c, ssets[..], 0);
      ClearStamps(ss, start);
    }

    /** Entry `css` is where the attempt from `b` is at position `cp`. */
    ghost predicate Here(b: nat, cp: nat, css: nat)
      reads this, ssets
    {
      && Ready(b, cp) && b <= cp && css < nssused && Colored(c, t)
      && ssets[css].states == SetAt(c, t, b, cp) && ssets[css].lastseen == cp
    }

    /** Start up: one step out of pre, over the symbol before `start`. */
    method Startup(start: nat) returns (css: int)
      requires Valid() && start <= |t.col|
      modifies this`search, this`nssused, this`chains, this`lastpost, this`lastnopr, ssets
      ensures css == NONE ==> SetAt(c, t, start, start) == {} && Ready(start, start - 1) && Valid()
      ensures css != NONE ==> css >= 0 && Here(start, start, css)
    {
      var ss := Initialize(start);
      FirstSet(c, t, start);
      var co := if start == 0 then Bos(c, t) else t.col[start - 1];
      css := Miss(ss, co, start, start, start - 1);
      if css != NONE {
        Stamp(css, start, start);
      }
    }

    /** Follow the character at `cp`, by an out-arc or else by a miss. */
    method Follow(css: nat, cp: nat, start: nat) returns (ss: int)
      requires Here(start, cp, css) && cp < |t.col|
      modifies this`search, this`nssused, this`chains, this`lastpost, this`lastnopr, ssets
      ensures ss == NONE ==> SetAt(c, t, start, cp + 1) == {} && Here(start, cp, css)
      ensures ss != NONE ==> 0 <= ss < nssused && Pending(start, cp, ss) && ssets[ss].states == SetAt(c, t, start, cp + 1)
    {
      NextSet(c, t, start, cp);
      var co := t.col[cp];
      ss := ssets[css].outs[co];
      if ss == NONE {
        ss := Miss(css, co, cp + 1, start, cp);
      } else {
        HitRight(css, co, cp + 1, start, cp);
        HitTracking(c, t, ssets[..], nssused, start, cp, ss, lastpost, lastnopr);
      }
    }

    /** Advance over one character. */
    method Advance(css: nat, cp: nat, start: nat) returns (ss: int)
      requires Here(start, cp, css) && cp < |t.col|
      modifies this`search, this`nssused, this`chains, this`lastpost, this`lastnopr, ssets
      ensures ss == NONE ==> SetAt(c, t, start, cp + 1) == {} && Here(start, cp, css)
      ensures ss != NONE ==> ss >= 0 && Here(start, cp + 1, ss)
      ensures ss != NONE ==> (ssets[ss].post <==> c.post in SetAt(c, t, start, cp + 1))
    {
      ss := Follow(css, cp, start);
      if ss != NONE {
        assert GoodEntry(c, ssets[..], ss);
        Stamp(ss, cp + 1, start);
      }
    }

    /** The last position whose set had post, or NONE. Entry `hole`, which does not have
        post, need not have a stamp. */
    method LastPost(ghost b: nat, ghost cur: int, ghost hole: int) returns (post: int)
      requires Wired() && cur <= |t.col| && NONE <= lastpost && Coherent(c, t, ssets[..], nssused, NONE) && WellFormed(c)
      requires Stamped(c, t, ssets[..], nssused, b, cur, hole) && (0 <= hole < nssused ==> !ssets[hole].post)
      requires exists idle :: Remembered(c, t, ssets[..], nssused, b, cur, hole, false, idle, lastpost, lastnopr)
      ensures post == NONE || PostAt(c, t, b, cur, post)
      ensures forall p :: PostAt(c, t, b, cur, p) ==> p <= post
    {
      ghost var s := ssets[..];
      ghost var idle :| Remembered(c, t, s, nssused, b, cur, hole, false, idle, lastpost, lastnopr);
      post := lastpost;
      for i := 0 to nssused
        invariant post >= lastpost && (post == NONE || PostAt(c, t, b, cur, post))
        invariant forall j :: 0 <= j < i && ssets[j].post ==> ssets[j].lastseen <= post
      {
        assert GoodEntry(c, s, i) && (i != hole ==> GoodStamp(c, t, s, b, cur, i));
        if ssets[i].post && post != ssets[i].lastseen && (post == NONE || post < ssets[i].lastseen) {
          post := ssets[i].lastseen;
        }
      }
      forall p | PostAt(c, t, b, cur, p) ensures p <= post {
        assert PostSeen(s, nssused, hole, lastpost, p);
        if lastpost < p {
          var i :| 0 <= i < nssused && i != hole && s[i].post && s[i].lastseen >= p;
          assert ssets[i] == s[i];
        }
      }
    }

    /** One more step at the end of the string, over the end-of-string symbol. If it
        gets anywhere but not to post, the entry it got to is stamped, to be tidy. */
    method AtStop(start: nat, css: nat) returns (matched: bool, ghost hole: int)
      requires Here(start, |t.col|, css)
      modifies this`search, this`nssused, this`chains, this`lastpost, this`lastnopr, ssets
      ensures Valid() && (matched <==> Matches(c, t, start, |t.col|))
      ensures NONE <= lastpost && Stamped(c, t, ssets[..], nssused, start, |t.col|, hole)
      ensures !matched ==> (0 <= hole < nssused ==> !ssets[hole].post)
      ensures !matched ==> exists idle :: Remembered(c, t, ssets[..], nssused, start, |t.col|, hole, false, idle, lastpost, lastnopr)
    {
      var cp := |t.col|;
      MatchAtStop(c, t, start);
      var ss := Miss(css, Eos(c, t), cp, start, cp);
      if ss == NONE {
        return false, NONE;
      }
      assert GoodEntry(c, ssets[..], ss);
      if ssets[ss].post {
        return true, ss;
      }
      matched, hole := false, ss;
      ghost var s := ssets[..];
      assert Remembered(c, t, s, nssused, start, cp, ss, false, s[ss].noprogress, lastpost, lastnopr);
      ssets[ss] := ssets[ss].(lastseen := cp);
      assert ssets[..] == s[ss := s[ss].(lastseen := cp)];
      StampCoherent(c, t, s, ssets[..], nssused, ss);
      FillLinked(s, ssets[..], nssused, c.ncolors, chains, ss);
      StampHole(c, t, s, ssets[..], nssused, start, cp, ss, lastpost, lastnopr);
    }

    /** The end of an attempt: a match that ends at the end of the string, or else the
        last one seen. */
    method Shutdown(start: nat, stop: nat, cp: nat, css: nat) returns (end: int, hitstop: bool)
      requires Here(start, cp, css) && start <= stop <= |t.col|
      requires cp <= (if stop == |t.col| then stop else stop + 1)
      requires cp == (if stop == |t.col| then stop else stop + 1) || SetAt(c, t, start, cp + 1) == {}
      modifies this`search, this`nssused, this`chains, this`lastpost, this`lastnopr, ssets
      ensures Valid()
      ensures end == NONE ==> forall e :: start <= e <= stop ==> !Matches(c, t, start, e)
      ensures end != NONE ==> start <= end <= stop && Matches(c, t, start, end)
      ensures end != NONE ==> forall e :: end < e <= stop ==> !Matches(c, t, start, e)
      ensures hitstop <==> stop == |t.col| && SetAt(c, t, start, stop) != {}
    {
      assert GoodEntry(c, ssets[..], css);
      ReachedStop(c, t, start, stop, cp);
      hitstop := false;
      ghost var hole := NONE;
      if cp == |t.col| && stop == |t.col| {
        hitstop := true;
        var matched;
        matched, hole := AtStop(start, css);
        if matched {
          return cp, true;
        }
      } else {
        assert Remembered(c, t, ssets[..], nssused, start, cp, NONE, false, false, lastpost, lastnopr);
      }
      var post := LastPost(start, cp, hole);
      LastMatch(c, t, start, stop, cp, post);
      if post != NONE {
        return post - 1, hitstop;
      }
      return NONE, hitstop;
    }

    /** The main loop: advance to `limit`, or until there is nowhere to go. */
    method Run(start: nat, limit: nat, first: nat) returns (cp: nat, css: nat)
      requires Here(start, start, first) && start <= limit <= |t.col|
      modifies this`search, this`nssused, this`chains, this`lastpost, this`lastnopr, ssets
      ensures start <= cp <= limit && Here(start, cp, css)
      ensures cp == limit || SetAt(c, t, start, cp + 1) == {}
    {
      cp, css := start, first;
      while cp < limit
        invariant start <= cp <= limit && Here(start, cp, css)
      {
        var ss := Advance(css, cp, start);
        if ss == NONE {
          break;
        }
        cp := cp + 1;
        css := ss;
      }
    }

    /** The longest match that starts at `start` and ends in [start, stop]; NONE if there
        is none. `hitstop` says whether the end of the string was reached. */
    method Longest(start: nat, stop: nat) returns (end: int, hitstop: bool)
      requires Valid() && start <= stop <= |t.col|
      modifies this`search, this`nssused, this`chains, this`lastpost, this`lastnopr, ssets
      ensures Valid()
      ensures end == NONE ==> forall e :: start <= e <= stop ==> !Matches(c, t, start, e)
      ensures end != NONE ==> start <= end <= stop && Matches(c, t, start, end)
      ensures end != NONE ==> forall e :: end < e <= stop ==> !Matches(c, t, start, e)
      ensures hitstop <==> stop == |t.col| && SetAt(c, t, start, stop) != {}
    {
      hitstop := false;
      var realstop := if stop == |t.col| then stop else stop + 1;
      var css := Startup(start);
      if css == NONE {
        NothingMatches(c, t, start, start);
        EmptyForGood(c, t, start, start, stop);
        return NONE, false;
      }
      var cp;
      cp, css := Run(start, realstop, css);
      end, hitstop := Shutdown(start, stop, cp, css);
    }

    /** The last position at which no progress had been made, as far as the stamps tell. */
    method LastCold(ghost b: nat, ghost cur: nat) returns (nopr: int)
      requires Ready(b, cur)
      ensures nopr >= 0 && (nopr == 0 || nopr == b || IdleAt(c, t, b, cur, nopr))
      ensures forall p :: IdleAt(c, t, b, cur, p) ==> p <= nopr
    {
      ghost var s := ssets[..];
      nopr := lastnopr;
      if nopr == NONE {
        nopr := 0;
      }
      for i := 0 to nssused
        invariant nopr >= 0 && nopr >= lastnopr && (nopr == 0 || nopr == b || IdleAt(c, t, b, cur, nopr))
        invariant forall j :: 0 <= j < i && ssets[j].noprogress ==> ssets[j].lastseen <= nopr
      {
        assert GoodEntry(c, s, i) && GoodStamp(c, t, s, b, cur, i);
        if ssets[i].noprogress && nopr < ssets[i].lastseen {
          nopr := ssets[i].lastseen;
        }
      }
      forall p | IdleAt(c, t, b, cur, p) ensures p <= nopr {
        assert IdleSeen(s, nssused, NONE, lastnopr, p);
        if lastnopr < p {
          var i :| 0 <= i < nssused && s[i].noprogress && s[i].lastseen >= p;
          assert ssets[i] == s[i];
        }
      }
    }

    /** How far the main loop of `Shortest` has come: it is `stuck` if there is nowhere
        to go, and has `found` a match if post is in the set at `realmin` or later. */
    ghost predicate Searched(start: nat, realmin: nat, cp: nat, css: nat, stuck: bool, found: bool)
      reads this, ssets
    {
      && Here(start, cp, css)
      && (stuck ==> !found && cp < |t.col| && SetAt(c, t, start, cp + 1) == {})
      && (found ==> realmin <= cp && start < cp && c.post in SetAt(c, t, start, cp))
      && NoPostIn(c, t, start, realmin, if found then cp else cp + 1)
    }

    /** One round of the main loop of `Shortest`. */
    method ShortStep(start: nat, realmin: nat, cp0: nat, css0: nat) returns (cp: nat, css: nat, stuck: bool, found: bool)
      requires Searched(start, realmin, cp0, css0, false, false) && cp0 < |t.col|
      modifies this`search, this`nssused, this`chains, this`lastpost, this`lastnopr, ssets
      ensures Searched(start, realmin, cp, css, stuck, found)
      ensures if stuck then cp == cp0 else cp == cp0 + 1
    {
      var ss := Advance(css0, cp0, start);
      if ss == NONE {
        return cp0, css0, true, false;
      }
      cp, css := cp0 + 1, ss;
      return cp, css, false, ssets[ss].post && cp >= realmin;
    }

    /** The main loop of `Shortest`: go on to `limit`, or until stuck or done. */
    method RunShort(start: nat, realmin: nat, limit: nat, first: nat) returns (cp: nat, css: nat, stuck: bool, found: bool)
      requires Here(start, start, first) && start <= limit <= |t.col|
      modifies this`search, this`nssused, this`chains, this`lastpost, this`lastnopr, ssets
      ensures Searched(start, realmin, cp, css, stuck, found) && start <= cp <= limit
      ensures !stuck && !found ==> cp == limit
    {
      cp, css, stuck, found := start, first, false, false;
      while cp < limit && !stuck && !found
        invariant start <= cp <= limit && Searched(start, realmin, cp, css, stuck, found)
        decreases limit - cp, !stuck
      {
        cp, css, stuck, found := ShortStep(start, realmin, cp, css);
      }
    }

    /** The end of a shortest-match attempt that did not get stuck. */
    method ShortEnd(start: nat, min: nat, max: nat, cp: nat, css: nat, ghost found: bool, ghost cold: int) returns (end: int, hitstop: bool)
      requires Here(start, cp, css) && start <= min <= max <= |t.col|
      requires !found ==> cp == if max == |t.col| then max else max + 1
      requires found ==> start < cp <= (if max == |t.col| then max else max + 1) && c.post in SetAt(c, t, start, cp)
      requires found ==> cp >= if min == |t.col| then min else min + 1
      requires NoPostIn(c, t, start, if min == |t.col| then min else min + 1, if found then cp else cp + 1)
      requires cold == 0 || cold == start || IdleAt(c, t, start, cp, cold)
      requires forall p :: IdleAt(c, t, start, cp, p) ==> p <= cold
      modifies this`search, this`nssused, this`chains, this`lastpost, this`lastnopr, ssets
      ensures Valid()
      ensures end == NONE ==> forall e :: min <= e <= max ==> !Matches(c, t, start, e)
      ensures end != NONE ==> min <= end <= max && Matches(c, t, start, end)
      ensures end != NONE ==> forall e :: min <= e < end ==> !Matches(c, t, start, e)
      ensures end != NONE ==> cold == 0 || cold == start || IdleAt(c, t, start, end, cold)
      ensures end != NONE ==> forall p :: IdleAt(c, t, start, end, p) ==> p <= cold
      ensures hitstop <==> end == NONE && max == |t.col|
      ensures hitstop ==> SetAt(c, t, start, |t.col|) != {}
    {
      NoMatchYet(c, t, start, min, if found then cp else cp + 1);
      assert GoodEntry(c, ssets[..], css);
      FirstSetLacksPost(c, t, start);
      hitstop := false;
      if ssets[css].post && cp > min {
        MatchInside(c, t, start, cp - 1);
        PostIsNotIdle(c, t, start, cp, cp - 1);
        return cp - 1, false;
      } else if cp == |t.col| && max == |t.col| {
        var matched, _ := AtStop(start, css);
        if !matched {
          return NONE, true;
        }
        return cp, false;
      }
      return NONE, false;
    }

    /** The main loop of a shortest-match attempt and its end. */
    method ShortFrom(start: nat, min: nat, max: nat, css0: nat) returns (end: int, cold: int, hitstop: bool)
      requires Here(start, start, css0) && start <= min <= max <= |t.col|
      modifies this`search, this`nssused, this`chains, this`lastpost, this`lastnopr, ssets
      ensures Valid()
      ensures end == NONE ==> forall e :: min <= e <= max ==> !Matches(c, t, start, e)
      ensures end != NONE ==> min <= end <= max && Matches(c, t, start, end)
      ensures end != NONE ==> forall e :: min <= e < end ==> !Matches(c, t, start, e)
      ensures end != NONE ==> cold == 0 || cold == start || IdleAt(c, t, start, end, cold)
      ensures end != NONE ==> forall p :: IdleAt(c, t, start, end, p) ==> p <= cold
      ensures hitstop <==> end == NONE && max == |t.col| && SetAt(c, t, start, max) != {}
    {
      cold, hitstop := NONE, false;
      var realmin := if min == |t.col| then min else min + 1;
      var realmax := if max == |t.col| then max else max + 1;
      var cp, css, stuck, found;
      cp, css, stuck, found := RunShort(start, realmin, realmax, css0);
      if stuck {
        StuckMeansNoMatch(c, t, start, min, cp);
        if max == |t.col| { EmptyForGood(c, t, start, cp + 1, max); }
        return NONE, cold, hitstop;
      }
      cold := LastCold(start, cp);
      end, hitstop := ShortEnd(start, min, max, cp, css, found, cold);
    }

    /** The shortest match that starts at `start` and ends in [min, max]; NONE if there is
        none. If there is one, `cold` is the last position without progress up to its end
        (or 0 or `start` if there is no such position); `hitstop` says that the end of the
        string was reached in vain. */
    method Shortest(start: nat, min: nat, max: nat) returns (end: int, cold: int, hitstop: bool)
      requires Valid() && start <= min <= max <= |t.col|
      modifies this`search, this`nssused, this`chains, this`lastpost, this`lastnopr, ssets
      ensures Valid()
      ensures end == NONE ==> forall e :: min <= e <= max ==> !Matches(c, t, start, e)
      ensures end != NONE ==> min <= end <= max && Matches(c, t, start, end)
      ensures end != NONE ==> forall e :: min <= e < end ==> !Matches(c, t, start, e)
      ensures end != NONE ==> cold == 0 || cold == start || IdleAt(c, t, start, end, cold)
      ensures end != NONE ==> forall p :: IdleAt(c, t, start, end, p) ==> p <= cold
      ensures hitstop <==> end == NONE && max == |t.col| && SetAt(c, t, start, max) != {}
    {
      cold, hitstop := NONE, false;
      var css := Startup(start);
      if css == NONE {
        NothingMatches(c, t, start, start);
        EmptyForGood(c, t, start, start, max);
        return NONE, cold, hitstop;
      }
      end, cold, hitstop := ShortFrom(start, min, max, css);
    }
  }
}

/** The entries of the state-set cache and the chains that link them. */
module CacheLinks {

  /** "Pointer" to an out-arc: entry and colour. */
  datatype ArcP = NoArc | ArcP(ss: nat, co: nat)

  const NONE: int := -1

  /** A cache entry. `outs` gives for each colour the entry it leads to, or NONE; `ins`
      heads the chain of out-arcs that lead here, which runs on through the
      `inchain` of the entries those arcs belong to. `lastseen` is the position at
      which the entry was last entered, or NONE. */
  datatype SSet = SSet(states: set<nat>, starter: bool, post: bool, locked: bool, noprogress: bool,
                       ins: ArcP, lastseen: int, outs: seq<int>, inchain: seq<ArcP>)

  ghost predicate Sized(s: seq<SSet>, nc: nat) {
    forall p :: 0 <= p < |s| ==> |s[p].outs| == nc && |s[p].inchain| == nc
  }

  function After(chain: seq<ArcP>, k: int): ArcP
    requires -1 <= k
  {
    if k + 1 < |chain| then chain[k + 1] else NoArc
  }

  ghost predicate LinkTo(s: seq<SSet>, used: nat, nc: nat, l: ArcP, q: nat)
    requires used <= |s| && Sized(s, nc)
  {
    l.ArcP? && l.ss < used && l.co < nc && s[l.ss].outs[l.co] == q
  }

  /** The `k`th link of q's chain leads to q and is followed by the next one. */
  ghost predicate Threaded(s: seq<SSet>, used: nat, nc: nat, chain: seq<ArcP>, q: nat, k: nat)
    requires used <= |s| && Sized(s, nc) && k < |chain|
  {
    LinkTo(s, used, nc, chain[k], q) && s[chain[k].ss].inchain[chain[k].co] == After(chain, k)
  }

  ghost predicate ChainOf(s: seq<SSet>, used: nat, nc: nat, chain: seq<ArcP>, q: nat)
    requires used <= |s| && Sized(s, nc) && q < used
  {
    && s[q].ins == After(chain, -1)
    && (forall k :: 0 <= k < |chain| ==> Threaded(s, used, nc, chain, q, k))
    && (forall j, k :: 0 <= j < k < |chain| ==> chain[j] != chain[k])
  }

  /** Each out-arc that leads anywhere is in the chain of the entry it leads to. */
  ghost predicate Chained(s: seq<SSet>, used: nat, nc: nat, chains: seq<seq<ArcP>>)
    requires used <= |s| == |chains| && Sized(s, nc)
  {
    forall p, co :: 0 <= p < used && 0 <= co < nc ==>
      NONE <= s[p].outs[co] < used && (s[p].outs[co] >= 0 ==> ArcP(p, co) in chains[s[p].outs[co]])
  }

  /** `chains[q]` lists, without repetition, exactly the out-arcs that lead to entry q,
      and is what one meets by following q's in-chain. */
  ghost predicate Linked(s: seq<SSet>, used: nat, nc: nat, chains: seq<seq<ArcP>>) {
    && used <= |s| == |chains| && Sized(s, nc) && Chained(s, used, nc, chains)
    && (forall q :: 0 <= q < used ==> ChainOf(s, used, nc, chains[q], q))
  }

  function Dropped(chain: seq<ArcP>, k: nat): seq<ArcP>
    requires k < |chain|
  {
    chain[..k] + chain[k + 1..]
  }

  /** `r` is `s` with the `k`th link of q's chain taken out. */
  ghost predicate Unlinked(s: seq<SSet>, r: seq<SSet>, nc: nat, chain: seq<ArcP>, q: nat, k: nat)
    requires |s| == |r| && Sized(s, nc) && Sized(r, nc) && k < |chain|
  {
    && (forall p, co :: 0 <= p < |s| && 0 <= co < nc ==>
          r[p].outs[co] == if ArcP(p, co) == chain[k] then NONE else s[p].outs[co])
    && (forall p, co :: 0 <= p < |s| && 0 <= co < nc && ArcP(p, co) != chain[k] ==>
          r[p].inchain[co] == if k > 0 && ArcP(p, co) == chain[k - 1] then After(chain, k) else s[p].inchain[co])
    && (forall p :: 0 <= p < |s| ==> r[p].ins == if p == q && k == 0 then After(chain, 0) else s[p].ins)
  }

  lemma UnlinkedMembers(s: seq<SSet>, r: seq<SSet>, used: nat, nc: nat, chains: seq<seq<ArcP>>, q: nat, k: nat)
    requires Linked(s, used, nc, chains) && q < used && k < |chains[q]|
    requires |s| == |r| && Sized(r, nc) && Unlinked(s, r, nc, chains[q], q, k)
    ensures Chained(r, used, nc, chains[q := Dropped(chains[q], k)])
  {
    forall p, co | 0 <= p < used && 0 <= co < nc
      ensures NONE <= r[p].outs[co] < used
      ensures r[p].outs[co] >= 0 ==> ArcP(p, co) in chains[q := Dropped(chains[q], k)][r[p].outs[co]]
    {
      if r[p].outs[co] == q {
        var j :| 0 <= j < |chains[q]| && chains[q][j] == ArcP(p, co);
        assert j != k;
        assert Dropped(chains[q], k)[if j < k then j else j - 1] == chains[q][j];
      }
    }
  }

  lemma UnlinkedOwn(s: seq<SSet>, r: seq<SSet>, used: nat, nc: nat, chain: seq<ArcP>, q: nat, k: nat)
    requires used <= |s| && Sized(s, nc) && q < used && ChainOf(s, used, nc, chain, q) && k < |chain|
    requires |s| == |r| && Sized(r, nc) && Unlinked(s, r, nc, chain, q, k)
    ensures ChainOf(r, used, nc, Dropped(chain, k), q)
  {
    var d := Dropped(chain, k);
    forall j | 0 <= j < |d| ensures Threaded(r, used, nc, d, q, j) {
      var j' := if j >= k then j + 1 else j;
      assert d[j] == chain[j'] && Threaded(s, used, nc, chain, q, j');
      assert k > 0 && j' != k - 1 ==> chain[j'] != chain[k - 1];
    }
  }

  lemma UnlinkedOther(s: seq<SSet>, r: seq<SSet>, used: nat, nc: nat, chain: seq<ArcP>, q: nat, k: nat, other: seq<ArcP>, q': nat)
    requires used <= |s| && Sized(s, nc) && q < used && ChainOf(s, used, nc, chain, q) && k < |chain|
    requires |s| == |r| && Sized(r, nc) && Unlinked(s, r, nc, chain, q, k)
    requires q' < used && q' != q && ChainOf(s, used, nc, other, q')
    ensures ChainOf(r, used, nc, other, q')
  {
    forall j | 0 <= j < |other| ensures Threaded(r, used, nc, other, q', j) {
      assert Threaded(s, used, nc, other, q', j);
      assert Threaded(s, used, nc, chain, q, k);
      assert k > 0 ==> Threaded(s, used, nc, chain, q, k - 1);
    }
  }

  /** Taking one link out keeps everything linked. */
  lemma UnlinkedLinked(s: seq<SSet>, r: seq<SSet>, used: nat, nc: nat, chains: seq<seq<ArcP>>, q: nat, k: nat)
    requires Linked(s, used, nc, chains) && q < used && k < |chains[q]|
    requires |s| == |r| && Sized(r, nc) && Unlinked(s, r, nc, chains[q], q, k)
    ensures Linked(r, used, nc, chains[q := Dropped(chains[q], k)])
  {
    var ch := chains[q := Dropped(chains[q], k)];
    UnlinkedMembers(s, r, used, nc, chains, q, k);
    forall q' | 0 <= q' < used ensures ChainOf(r, used, nc, ch[q'], q') {
      if q' == q {
        UnlinkedOwn(s, r, used, nc, chains[q], q, k);
      } else {
        UnlinkedOther(s, r, used, nc, chains[q], q, k, chains[q'], q');
      }
    }
  }

  /** `r` is `s` with the free out-arc (p, co) linked to q at the head of q's chain. */
  ghost predicate LinkedIn(s: seq<SSet>, r: seq<SSet>, nc: nat, p: nat, co: nat, q: nat)
    requires |s| == |r| && Sized(s, nc) && Sized(r, nc) && q < |s|
  {
    && (forall p', co' :: 0 <= p' < |s| && 0 <= co' < nc ==>
          r[p'].outs[co'] == if p' == p && co' == co then q else s[p'].outs[co'])
    && (forall p', co' :: 0 <= p' < |s| && 0 <= co' < nc ==>
          r[p'].inchain[co'] == if p' == p && co' == co then s[q].ins else s[p'].inchain[co'])
    && (forall p' :: 0 <= p' < |s| ==> r[p'].ins == if p' == q then ArcP(p, co) else s[p'].ins)
  }

  lemma LinkedInOther(s: seq<SSet>, r: seq<SSet>, used: nat, nc: nat, p: nat, co: nat, q: nat, chain: seq<ArcP>, q': nat)
    requires used <= |s| && Sized(s, nc) && p < used && co < nc && q < used && s[p].outs[co] == NONE
    requires |s| == |r| && Sized(r, nc) && LinkedIn(s, r, nc, p, co, q)
    requires q' < used && q' != q && ChainOf(s, used, nc, chain, q')
    ensures ChainOf(r, used, nc, chain, q')
  {
    forall j | 0 <= j < |chain| ensures Threaded(r, used, nc, chain, q', j) {
      assert Threaded(s, used, nc, chain, q', j);
    }
  }

  lemma LinkedInOwn(s: seq<SSet>, r: seq<SSet>, used: nat, nc: nat, p: nat, co: nat, q: nat, chain: seq<ArcP>)
    requires used <= |s| && Sized(s, nc) && p < used && co < nc && q < used && s[p].outs[co] == NONE
    requires |s| == |r| && Sized(r, nc) && LinkedIn(s, r, nc, p, co, q)
    requires ChainOf(s, used, nc, chain, q)
    ensures ChainOf(r, used, nc, [ArcP(p, co)] + chain, q)
  {
    var d := [ArcP(p, co)] + chain;
    forall j | 0 < j < |d| ensures Threaded(r, used, nc, d, q, j) && d[j] == chain[j - 1] != ArcP(p, co) {
      assert Threaded(s, used, nc, chain, q, j - 1);
    }
    assert Threaded(r, used, nc, d, q, 0);
  }

  /** Adding one link at the head of a chain keeps everything linked. */
  lemma LinkedInLinked(s: seq<SSet>, r: seq<SSet>, used: nat, nc: nat, chains: seq<seq<ArcP>>, p: nat, co: nat, q: nat)
    requires Linked(s, used, nc, chains) && p < used && co < nc && q < used && s[p].outs[co] == NONE
    requires |s| == |r| && Sized(r, nc) && LinkedIn(s, r, nc, p, co, q)
    ensures Linked(r, used, nc, chains[q := [ArcP(p, co)] + chains[q]])
  {
    var ch := chains[q := [ArcP(p, co)] + chains[q]];
    forall p', co' | 0 <= p' < used && 0 <= co' < nc
      ensures NONE <= r[p'].outs[co'] < used
      ensures r[p'].outs[co'] >= 0 ==> ArcP(p', co') in ch[r[p'].outs[co']]
    {
      assert ch[q][0] == ArcP(p, co);
      assert forall l :: l in chains[q] ==> l in ch[q];
    }
    forall q' | 0 <= q' < used ensures ChainOf(r, used, nc, ch[q'], q') {
      if q' == q {
        LinkedInOwn(s, r, used, nc, p, co, q, chains[q]);
      } else {
        LinkedInOther(s, r, used, nc, p, co, q, chains[q'], q');
      }
    }
  }
}

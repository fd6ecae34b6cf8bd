/** The free lists of the power-of-two allocator and the ring of its big blocks, on values. */
module AllocLinks {
  import opened AllocFacts

  // ----- free lists

  /** What follows place `i` of a list. */
  function NextIn(l: seq<int>, i: int): int { if 0 <= i + 1 < |l| then l[i + 1] else NULL }

  /** `l` is what is linked up from `head` on. */
  ghost predicate Linked(over: map<int, Overhead>, head: int, l: seq<int>) {
    && head == NextIn(l, -1)
    && (forall i, j :: 0 <= i < j < |l| ==> l[i] != l[j])
    && forall i :: 0 <= i < |l| ==> LinkIn(over, l, i)
  }

  ghost predicate LinkIn(over: map<int, Overhead>, l: seq<int>, i: int)
    requires 0 <= i < |l|
  {
    l[i] > 0 && l[i] in over && over[l[i]] == Next(NextIn(l, i))
  }

  lemma LinkedKept(over: map<int, Overhead>, over': map<int, Overhead>, head: int, l: seq<int>)
    requires Linked(over, head, l) && forall p :: p in l && p in over ==> p in over' && over'[p] == over[p]
    ensures Linked(over', head, l)
  {
    forall i | 0 <= i < |l| ensures LinkIn(over', l, i) {
      assert LinkIn(over, l, i) && l[i] in l;
    }
  }

  lemma LinkedPop(over: map<int, Overhead>, over': map<int, Overhead>, head: int, l: seq<int>)
    requires Linked(over, head, l) && l != [] && forall p :: p in over && p != head ==> p in over' && over'[p] == over[p]
    ensures head == l[0] > 0 && head in over && over[head] == Next(NextIn(l, 0)) && head !in l[1..] && Linked(over', NextIn(l, 0), l[1..])
  {
    var rest := l[1..];
    assert LinkIn(over, l, 0);
    forall i | 0 <= i < |rest| ensures LinkIn(over', rest, i) {
      assert LinkIn(over, l, i + 1) && l[i + 1] != l[0];
    }
    assert NextIn(rest, -1) == NextIn(l, 0);
  }

  lemma LinkedPush(over: map<int, Overhead>, over': map<int, Overhead>, head: int, l: seq<int>, p: int)
    requires Linked(over, head, l) && p !in l && p > 0 && p in over' && over'[p] == Next(head)
    requires forall x :: x in over && x != p ==> x in over' && over'[x] == over[x]
    ensures Linked(over', p, [p] + l)
  {
    var more := [p] + l;
    forall i | 0 <= i < |more| ensures LinkIn(over', more, i) {
      if i > 0 {
        assert LinkIn(over, l, i - 1) && NextIn(l, i - 1) == NextIn(more, i) && l[i - 1] in l;
      } else {
        assert NextIn(more, 0) == NextIn(l, -1);
      }
    }
  }

  /** Every bucket has its list, of free blocks of its own size. */
  ghost predicate ListsGood(over: map<int, Overhead>, nextf: seq<int>, free: seq<seq<int>>, slots: map<int, Slot>) {
    && |nextf| == |free| == NBUCKETS
    && forall b :: 0 <= b < NBUCKETS ==> ListGood(over, nextf[b], free[b], slots, b)
  }

  ghost predicate ListGood(over: map<int, Overhead>, head: int, l: seq<int>, slots: map<int, Slot>, b: int) {
    Linked(over, head, l) && forall p :: p in l ==> p in slots && slots[p].bucket == b
  }

  // ----- the ring of big blocks

  function RingAt(ring: seq<int>, i: int): int { if 0 <= i < |ring| then ring[i] else ANCHOR }

  /** Forward and backward links agree all the way round. */
  ghost predicate RingGood(ring: seq<int>, nextPtr: map<int, int>, prevPtr: map<int, int>) {
    && (forall i, j :: 0 <= i < j < |ring| ==> ring[i] != ring[j])
    && (forall q :: q in ring ==> q > 0)
    && forall i {:trigger RingAt(ring, i)} :: -1 <= i < |ring| ==> RingLink(ring, nextPtr, prevPtr, i)
  }

  ghost predicate RingLink(ring: seq<int>, nextPtr: map<int, int>, prevPtr: map<int, int>, i: int) {
    && RingAt(ring, i) in nextPtr && nextPtr[RingAt(ring, i)] == RingAt(ring, i + 1)
    && RingAt(ring, i + 1) in prevPtr && prevPtr[RingAt(ring, i + 1)] == RingAt(ring, i)
  }

  /** A big block joins the ring right after the anchor. */
  lemma RingInsert(ring: seq<int>, next: map<int, int>, prev: map<int, int>, q: int)
    requires RingGood(ring, next, prev) && q !in ring && q > 0
    ensures ANCHOR in next && RingGood([q] + ring, next[q := next[ANCHOR]][ANCHOR := q], prev[q := ANCHOR][next[ANCHOR] := q])
  {
    assert RingAt(ring, -1) == ANCHOR && RingLink(ring, next, prev, -1);
    var more, next', prev' := [q] + ring, next[q := next[ANCHOR]][ANCHOR := q], prev[q := ANCHOR][next[ANCHOR] := q];
    forall i | -1 <= i < |more| ensures RingLink(more, next', prev', i) {
      if i >= 1 {
        assert RingLink(ring, next, prev, i - 1) && RingAt(more, i) == RingAt(ring, i - 1) && RingAt(more, i + 1) == RingAt(ring, i);
        assert ring[i - 1] in ring && (i < |ring| ==> ring[i] in ring && ring[0] != ring[i]);
      }
    }
  }

  /** A big block and its neighbours. */
  lemma RingAround(ring: seq<int>, next: map<int, int>, prev: map<int, int>, k: nat)
    requires RingGood(ring, next, prev) && k < |ring|
    ensures RingAt(ring, k) == ring[k] && RingLink(ring, next, prev, k) && RingLink(ring, next, prev, k - 1)
    ensures ring[k] in next && next[ring[k]] == RingAt(ring, k + 1) && ring[k] in prev && prev[ring[k]] == RingAt(ring, k - 1)
  {
    var here, before := RingAt(ring, k), RingAt(ring, k - 1);
    assert RingLink(ring, next, prev, k);
    assert RingLink(ring, next, prev, k - 1);
  }

  /** A big block is taken out of the ring. */
  lemma RingRemove(ring: seq<int>, next: map<int, int>, prev: map<int, int>, k: nat)
    requires RingGood(ring, next, prev) && k < |ring|
    ensures var q := ring[k];
            && q in next && q in prev
            && RingGood(ring[..k] + ring[k + 1..], next[prev[q] := next[q]], prev[next[q] := prev[q]])
  {
    var q := ring[k];
    RingAround(ring, next, prev, k);
    var fewer, next', prev' := ring[..k] + ring[k + 1..], next[prev[q] := next[q]], prev[next[q] := prev[q]];
    forall i | -1 <= i < |fewer| ensures RingLink(fewer, next', prev', i) {
      var j := if i < k then i else i + 1;
      assert RingAt(fewer, i) == RingAt(ring, j) && RingLink(ring, next, prev, j);
      assert RingAt(fewer, i + 1) == RingAt(ring, if i + 1 < k then i + 1 else i + 2);
      if i != k - 1 {
        assert RingAt(ring, j) != prev[q] && RingAt(ring, j + 1) != next[q] by {
          RingDiffer(ring, j, k - 1);
          RingDiffer(ring, j + 1, k + 1);
        }
      }
    }
    forall x | x in fewer ensures x > 0 { assert x in ring; }
  }

  lemma RingDiffer(ring: seq<int>, i: int, j: int)
    requires forall a, b :: 0 <= a < b < |ring| ==> ring[a] != ring[b]
    requires forall q :: q in ring ==> q > 0
    requires -1 <= i <= |ring| && -1 <= j <= |ring| && i != j && (i < 0 || i == |ring| ==> 0 <= j < |ring|)
    ensures RingAt(ring, i) != RingAt(ring, j)
  {
    assert 0 <= i < |ring| ==> ring[i] in ring;
    assert 0 <= j < |ring| ==> ring[j] in ring;
  }

  /** A big block has moved from `ring[k]` to `q`, with its own links, and its neighbours are told. */
  lemma RingReplace(ring: seq<int>, next: map<int, int>, prev: map<int, int>, k: nat, q: int)
    requires RingGood(ring, next, prev) && k < |ring| && q !in ring && q > 0
    ensures var was := ring[k];
            && was in next && was in prev
            && RingGood(ring[k := q], next[q := next[was]][prev[was] := q], prev[q := prev[was]][next[was] := q])
  {
    var was := ring[k];
    RingAround(ring, next, prev, k);
    var now, next', prev' := ring[k := q], next[q := next[was]][prev[was] := q], prev[q := prev[was]][next[was] := q];
    forall i | -1 <= i < |now| ensures RingLink(now, next', prev', i) {
      assert RingLink(ring, next, prev, i);
      RingReplaceLink(ring, next, prev, k, q, i);
    }
    forall x | x in now ensures x > 0 { assert x == q || x in ring; }
  }

  lemma RingReplaceLink(ring: seq<int>, next: map<int, int>, prev: map<int, int>, k: nat, q: int, i: int)
    requires forall a, b :: 0 <= a < b < |ring| ==> ring[a] != ring[b]
    requires (forall x :: x in ring ==> x > 0) && k < |ring| && q !in ring && q > 0 && -1 <= i < |ring|
    requires RingLink(ring, next, prev, i) && RingLink(ring, next, prev, k) && RingLink(ring, next, prev, k - 1)
    ensures var was := ring[k];
            RingLink(ring[k := q], next[q := next[was]][prev[was] := q], prev[q := prev[was]][next[was] := q], i)
  {
    var now := ring[k := q];
    assert RingAt(now, i) == if i == k then q else RingAt(ring, i);
    assert RingAt(now, i + 1) == if i + 1 == k then q else RingAt(ring, i + 1);
    assert 0 <= i < |ring| ==> ring[i] in ring;
    assert 0 <= i + 1 < |ring| ==> ring[i + 1] in ring;
    if i != k - 1 && i != k {
      RingDiffer(ring, i, k - 1);
    }
    if i + 1 != k + 1 && i + 1 != k {
      RingDiffer(ring, i + 1, k + 1);
    }
  }
}

/** The whole memory of the power-of-two allocator, on values, and what each operation does to it. */
module AllocHeap {
  import opened AllocFacts
  import opened AllocLinks

  /** The heads of the free lists, what stands in front of the blocks, the links of the ring and
      the contents of the blocks; then what they stand for: the arenas with their buckets, the
      small blocks, the free lists, the ring, and what was asked for. */
  datatype Heap = Heap(nextf: seq<int>, over: map<int, Overhead>, next: map<int, int>, prev: map<int, int>, data: map<int, seq<int>>,
                       arenas: map<int, nat>, slots: map<int, Slot>, free: seq<seq<int>>, ring: seq<int>, asked: map<int, nat>)

  /** A block in use, as its owner knows it. */
  datatype Block = Block(asked: nat, data: seq<int>)

  ghost predicate InUse(h: Heap, p: int) { p in h.over && h.over[p].Used? }

  /** A small block is free and in its list, or in use and not too wasteful. */
  ghost predicate SmallGood(h: Heap, p: int)
    requires p in h.slots && |h.free| == NBUCKETS
  {
    var b := h.slots[p].bucket;
    && p in h.over && b < NBUCKETS
    && match h.over[p]
       case Next(_) => p in h.free[b]
       case Used(i) => i == b && p in h.asked && p in h.data && Fits(h.asked[p], b) && |h.data[p]| == Size(b) - OVERHEAD
  }

  ghost predicate BigGood(h: Heap, q: int) {
    var p := q + HEAD;
    && p in h.over && h.over[p] == Used(BIG) && p !in h.slots
    && p in h.asked && p in h.data && |h.data[p]| == h.asked[p]
  }

  /** The size of a big block with all that stands in front of it. */
  function BigSize(n: int): int { HEAD + OVERHEAD + n }

  ghost function Length(h: Heap, q: int): int { if q + HEAD in h.asked then BigSize(h.asked[q + HEAD]) else 0 }

  /** What the system has handed out does not overlap. */
  ghost predicate Separate(h: Heap) {
    && (forall a, q :: a in h.arenas && q in h.ring ==> Apart(a, ARENA, q, Length(h, q)))
    && (forall q, r :: q in h.ring && r in h.ring && q != r ==> Apart(q, Length(h, q), r, Length(h, r)))
  }

  /** Every block is as it should be. */
  ghost predicate Orderly(h: Heap) {
    && |h.free| == NBUCKETS
    && (forall p :: p in h.slots ==> SmallGood(h, p))
    && (forall q :: q in h.ring ==> BigGood(h, q))
    && (forall p :: p in h.over ==> p in h.slots || p - HEAD in h.ring)
  }

  /** A stretch of memory that has not been handed out, except perhaps to big block `but`. */
  ghost predicate Unused(h: Heap, x: int, n: int, but: int) {
    && x > 0 && (forall a :: a in h.arenas ==> Apart(x, n, a, ARENA))
    && (forall q :: q in h.ring && q != but ==> Apart(x, n, q, Length(h, q)))
  }

  // ----- the invariant, in parts that stay folded up until they are needed

  datatype Part = TilesPart | RegionsPart | ListsPart | RingPart | BlocksPart

  /** Always true: it is there only for the quantifiers below to be opened by, so that a part of
      the invariant is spelled out where `Unfolds` is mentioned, and nowhere else. */
  predicate Unfolds(part: Part, key: int) { true }

  ghost predicate Tiles(h: Heap) { forall key :: Unfolds(TilesPart, key) ==> Tiled(h.arenas, h.slots) }

  ghost predicate Regions(h: Heap) { forall key :: Unfolds(RegionsPart, key) ==> Separate(h) }

  ghost predicate Lists(h: Heap) { forall key :: Unfolds(ListsPart, key) ==> ListsGood(h.over, h.nextf, h.free, h.slots) }

  ghost predicate Ring(h: Heap) { forall key :: Unfolds(RingPart, key) ==> RingGood(h.ring, h.next, h.prev) }

  ghost predicate Blocks(h: Heap) { forall key :: Unfolds(BlocksPart, key) ==> Orderly(h) }

  ghost predicate Sound(h: Heap) {
    |h.nextf| == |h.free| == NBUCKETS && Tiles(h) && Regions(h) && Lists(h) && Ring(h) && Blocks(h)
  }

  lemma OpenTiles(h: Heap)
    requires Tiles(h)
    ensures Tiled(h.arenas, h.slots)
  {
    assert Unfolds(TilesPart, 0);
  }

  lemma OpenRegions(h: Heap)
    requires Regions(h)
    ensures Separate(h)
  {
    assert Unfolds(RegionsPart, 0);
  }

  lemma OpenLists(h: Heap)
    requires Lists(h)
    ensures ListsGood(h.over, h.nextf, h.free, h.slots)
  {
    assert Unfolds(ListsPart, 0);
  }

  lemma OpenRing(h: Heap)
    requires Ring(h)
    ensures RingGood(h.ring, h.next, h.prev)
  {
    assert Unfolds(RingPart, 0);
  }

  lemma OpenBlocks(h: Heap)
    requires Blocks(h)
    ensures Orderly(h)
  {
    assert Unfolds(BlocksPart, 0);
  }

  /** The big blocks that are left are where they were. */
  lemma RegionsSame(h: Heap, h': Heap)
    requires Regions(h) && h'.arenas == h.arenas && forall r :: r in h'.ring ==> r in h.ring && Length(h', r) == Length(h, r)
    ensures Regions(h')
  {
    OpenRegions(h);
  }

  /** The blocks in use. */
  ghost function Live(h: Heap): map<int, Block> {
    map p | p in h.over && h.over[p].Used? :: BlockAt(h, p)
  }

  ghost function BlockAt(h: Heap, p: int): Block {
    Block(if p in h.asked then h.asked[p] else 0, if p in h.data then h.data[p] else [])
  }

  lemma LiveIs(h: Heap, live: map<int, Block>)
    requires (forall p :: p in live <==> InUse(h, p)) && forall p :: p in live ==> live[p] == BlockAt(h, p)
    ensures Live(h) == live
  {
    forall p | p in live ensures p in Live(h) && Live(h)[p] == live[p] { assert InUse(h, p); }
    forall p | p in Live(h) ensures p in live { assert InUse(h, p); }
  }

  /** Whatever is in the lists is free. */
  lemma ListedIsFree(h: Heap, b: nat, p: int)
    requires Lists(h) && b < NBUCKETS == |h.free| && p in h.free[b]
    ensures p in h.over && h.over[p].Next? && p in h.slots && h.slots[p].bucket == b && p > 0
  {
    OpenLists(h);
    assert ListGood(h.over, h.nextf[b], h.free[b], h.slots, b);
    var i :| 0 <= i < |h.free[b]| && h.free[b][i] == p;
    assert LinkIn(h.over, h.free[b], i);
  }

  lemma EmptyList(h: Heap, b: nat)
    requires Lists(h) && b < NBUCKETS == |h.nextf| == |h.free|
    ensures h.nextf[b] == NULL <==> h.free[b] == []
  {
    OpenLists(h);
    assert ListGood(h.over, h.nextf[b], h.free[b], h.slots, b);
    if h.free[b] != [] {
      ListedIsFree(h, b, h.free[b][0]);
    }
  }

  /** A block of an arena is in use, or it is in the list of its bucket and in no other: live
      blocks and free blocks are disjoint and make up the arena. */
  lemma ArenaIsPartitioned(h: Heap, a: int, x: int) returns (p: int)
    requires Sound(h) && a in h.arenas && a + HEAD <= x < a + ARENA
    ensures p in h.slots && p <= x < p + Size(h.slots[p].bucket)
    ensures forall q :: q in h.slots && q <= x < q + Size(h.slots[q].bucket) ==> q == p
    ensures InUse(h, p) <==> forall b :: 0 <= b < NBUCKETS ==> p !in h.free[b]
    ensures forall b :: 0 <= b < NBUCKETS && p in h.free[b] ==> b == h.slots[p].bucket
  {
    OpenTiles(h);
    p := EveryByte(h.arenas, h.slots, a, x);
    forall q | q in h.slots && q <= x < q + Size(h.slots[q].bucket) ensures q == p {
      if q != p { SlotsApart(h.arenas, h.slots, p, q); }
    }
    assert SmallGood(h, p) by { OpenBlocks(h); }
    forall b | 0 <= b < NBUCKETS && p in h.free[b] ensures !InUse(h, p) && b == h.slots[p].bucket {
      ListedIsFree(h, b, p);
    }
  }

  /** A block in use that has a bucket is one of the small ones, and one that has none is in the ring. */
  lemma UsedBlock(h: Heap, p: int)
    requires Sound(h) && InUse(h, p)
    ensures p in h.asked && p in h.data && h.asked[p] <= |h.data[p]| && p > 0
    ensures if h.over[p].index == BIG then p - HEAD in h.ring && p !in h.slots && h.asked[p] == |h.data[p]|
            else p in h.slots && h.slots[p].bucket == h.over[p].index < NBUCKETS && |h.data[p]| == Size(h.over[p].index) - OVERHEAD
  {
    OpenBlocks(h);
    if p in h.slots {
      assert SmallGood(h, p);
      SlotPositive(h, p);
    } else {
      assert BigGood(h, p - HEAD);
      OpenRing(h);
    }
  }

  lemma SlotPositive(h: Heap, p: int)
    requires Tiles(h) && p in h.slots
    ensures p > 0
  {
    OpenTiles(h);
    assert SlotGood(h.arenas, p, h.slots[p]);
    SlotInside(h.slots[p].bucket, h.slots[p].arena, h.slots[p].k);
  }

  // ----- small blocks

  /** Take the first block off the list of its bucket. */
  ghost function Take(h: Heap, b: nat, n: nat, d: seq<int>): Heap
    requires b < |h.nextf| == |h.free| && h.free[b] != []
  {
    var p := h.nextf[b];
    h.(nextf := h.nextf[b := NextIn(h.free[b], 0)], over := h.over[p := Used(b)], data := h.data[p := d],
       free := h.free[b := h.free[b][1..]], asked := h.asked[p := n])
  }

  lemma TakeLists(h: Heap, b: nat, n: nat, d: seq<int>)
    requires Sound(h) && b < NBUCKETS && h.free[b] != []
    ensures var p := h.nextf[b]; p in h.free[b] && p in h.over && h.over[p] == Next(NextIn(h.free[b], 0)) && p in h.slots && h.slots[p].bucket == b && p > 0
    ensures Lists(Take(h, b, n, d))
  {
    OpenLists(h);
    var p, h' := h.nextf[b], Take(h, b, n, d);
    assert ListGood(h.over, h.nextf[b], h.free[b], h.slots, b);
    LinkedPop(h.over, h'.over, h.nextf[b], h.free[b]);
    assert p in h.free[b];
    ListedIsFree(h, b, p);
    forall c | 0 <= c < NBUCKETS ensures ListGood(h'.over, h'.nextf[c], h'.free[c], h'.slots, c) {
      assert ListGood(h.over, h.nextf[c], h.free[c], h.slots, c);
      if c != b {
        LinkedKept(h.over, h'.over, h.nextf[c], h.free[c]);
      }
    }
  }

  lemma TakeBlocks(h: Heap, b: nat, n: nat, d: seq<int>)
    requires Sound(h) && b < NBUCKETS && h.free[b] != [] && Fits(n, b) && |d| == Size(b) - OVERHEAD
    requires var p := h.nextf[b]; p in h.slots && h.slots[p].bucket == b && p in h.free[b] && h.free[b][0] == p
    ensures Blocks(Take(h, b, n, d)) && forall q :: q in h.ring ==> q + HEAD != h.nextf[b]
  {
    OpenBlocks(h);
    var p, h' := h.nextf[b], Take(h, b, n, d);
    forall q | q in h'.slots ensures SmallGood(h', q) {
      assert SmallGood(h, q);
      assert q in h.free[b] && q != p ==> q in h'.free[b];
    }
    forall q | q in h'.ring ensures BigGood(h', q) { assert BigGood(h, q); }
  }

  lemma TakeSound(h: Heap, b: nat, n: nat, d: seq<int>)
    requires Sound(h) && b < NBUCKETS && h.nextf[b] != NULL && Fits(n, b) && |d| == Size(b) - OVERHEAD
    ensures h.free[b] != []
    ensures var p := h.nextf[b];
            && p > 0 && p in h.over && h.over[p] == Next(NextIn(h.free[b], 0)) && p !in Live(h)
            && Sound(Take(h, b, n, d)) && Live(Take(h, b, n, d)) == Live(h)[p := Block(n, d)]
  {
    EmptyList(h, b);
    TakeLists(h, b, n, d);
    ListedIsFree(h, b, h.nextf[b]);
    FirstIsHead(h, b);
    TakeBlocks(h, b, n, d);
    RegionsSame(h, Take(h, b, n, d));
    LiveIs(Take(h, b, n, d), Live(h)[h.nextf[b] := Block(n, d)]);
  }

  lemma FirstIsHead(h: Heap, b: nat)
    requires Sound(h) && b < NBUCKETS && h.free[b] != []
    ensures h.free[b][0] == h.nextf[b]
  {
    OpenLists(h);
    assert ListGood(h.over, h.nextf[b], h.free[b], h.slots, b);
  }

  /** Put a block back on the list of its bucket. */
  ghost function GiveBack(h: Heap, p: int): Heap
    requires p in h.slots && h.slots[p].bucket < |h.nextf| == |h.free|
  {
    var b := h.slots[p].bucket;
    h.(nextf := h.nextf[b := p], over := h.over[p := Next(h.nextf[b])], free := h.free[b := [p] + h.free[b]])
  }

  lemma GiveBackLists(h: Heap, p: int)
    requires Sound(h) && InUse(h, p) && p in h.slots && h.slots[p].bucket < NBUCKETS
    ensures Lists(GiveBack(h, p))
  {
    OpenLists(h);
    SlotPositive(h, p);
    var h', b := GiveBack(h, p), h.slots[p].bucket;
    forall c | 0 <= c < NBUCKETS ensures ListGood(h'.over, h'.nextf[c], h'.free[c], h'.slots, c) {
      assert ListGood(h.over, h.nextf[c], h.free[c], h.slots, c);
      assert p !in h.free[c] by {
        if p in h.free[c] { ListedIsFree(h, c, p); }
      }
      if c == b {
        LinkedPush(h.over, h'.over, h.nextf[c], h.free[c], p);
      } else {
        LinkedKept(h.over, h'.over, h.nextf[c], h.free[c]);
      }
    }
  }

  lemma GiveBackBlocks(h: Heap, p: int)
    requires Sound(h) && InUse(h, p) && p in h.slots && h.slots[p].bucket < NBUCKETS
    ensures Blocks(GiveBack(h, p))
  {
    OpenBlocks(h);
    var h', b := GiveBack(h, p), h.slots[p].bucket;
    forall q | q in h'.slots ensures SmallGood(h', q) {
      assert SmallGood(h, q);
      assert q in h.free[b] || q == p ==> q in h'.free[b];
    }
    forall q | q in h'.ring ensures BigGood(h', q) { assert BigGood(h, q); }
  }

  lemma GiveBackSound(h: Heap, p: int)
    requires Sound(h) && InUse(h, p) && h.over[p].index != BIG
    ensures p in h.slots && h.slots[p].bucket == h.over[p].index < NBUCKETS
    ensures Sound(GiveBack(h, p)) && Live(GiveBack(h, p)) == Live(h) - {p}
  {
    UsedBlock(h, p);
    GiveBackLists(h, p);
    GiveBackBlocks(h, p);
    RegionsSame(h, GiveBack(h, p));
    LiveIs(GiveBack(h, p), Live(h) - {p});
  }

  /** A small block keeps its place while its owner asks for another size. */
  lemma ResizeSound(h: Heap, p: int, n: nat)
    requires Sound(h) && InUse(h, p) && h.over[p].index != BIG && Fits(n, h.over[p].index)
    ensures var h' := h.(asked := h.asked[p := n]); Sound(h') && p in h.data && Live(h') == Live(h)[p := Block(n, h.data[p])]
  {
    UsedBlock(h, p);
    ResizeBlocks(h, p, n);
    var h' := h.(asked := h.asked[p := n]);
    RegionsSame(h, h');
    LiveIs(h', Live(h)[p := Block(n, h.data[p])]);
  }

  lemma ResizeBlocks(h: Heap, p: int, n: nat)
    requires Sound(h) && InUse(h, p) && p in h.slots && Fits(n, h.slots[p].bucket)
    ensures Blocks(h.(asked := h.asked[p := n])) && forall q :: q in h.ring ==> q + HEAD != p
  {
    OpenBlocks(h);
    var h' := h.(asked := h.asked[p := n]);
    forall q | q in h'.slots ensures SmallGood(h', q) { assert SmallGood(h, q); }
    forall q | q in h'.ring ensures BigGood(h', q) { assert BigGood(h, q); }
  }

  /** A block in use is written to. */
  lemma WriteSound(h: Heap, p: int, d: seq<int>)
    requires Sound(h) && InUse(h, p) && p in h.data && |d| == |h.data[p]|
    ensures var h' := h.(data := h.data[p := d]); Sound(h') && p in h.asked && Live(h') == Live(h)[p := Block(h.asked[p], d)]
  {
    UsedBlock(h, p);
    WriteBlocks(h, p, d);
    var h' := h.(data := h.data[p := d]);
    RegionsSame(h, h');
    LiveIs(h', Live(h)[p := Block(h.asked[p], d)]);
  }

  lemma WriteBlocks(h: Heap, p: int, d: seq<int>)
    requires Sound(h) && p in h.data && |d| == |h.data[p]|
    ensures Blocks(h.(data := h.data[p := d]))
  {
    OpenBlocks(h);
    var h' := h.(data := h.data[p := d]);
    forall q | q in h'.slots ensures SmallGood(h', q) { assert SmallGood(h, q); }
    forall q | q in h'.ring ensures BigGood(h', q) { assert BigGood(h, q); }
  }

  // ----- a new arena

  /** The blocks of a new arena, from the first to the last. */
  function Chain(a: int, b: nat): (l: seq<int>)
    requires b < NBUCKETS
    ensures |l| == Count(b) && forall k :: 0 <= k < |l| ==> l[k] == SlotAt(a, k, b)
  {
    seq(Count(b), k => SlotAt(a, k, b))
  }

  /** The blocks of a new arena are linked up one after the other. */
  ghost predicate Strung(over: map<int, Overhead>, over': map<int, Overhead>, a: int, b: nat)
    requires b < NBUCKETS
  {
    && over'.Keys == over.Keys + Addresses(a, b)
    && (forall p :: p in over && p !in Addresses(a, b) ==> over'[p] == over[p])
    && forall k :: 0 <= k < Count(b) ==> StrungAt(over', a, b, k)
  }

  ghost predicate StrungAt(over: map<int, Overhead>, a: int, b: nat, k: int)
    requires b < NBUCKETS
  {
    SlotAt(a, k, b) in over && over[SlotAt(a, k, b)] == Next(if k + 1 < Count(b) then SlotAt(a, k + 1, b) else NULL)
  }

  lemma ChainLinked(over: map<int, Overhead>, over': map<int, Overhead>, a: int, b: nat)
    requires b < NBUCKETS && Strung(over, over', a, b) && a > 0
    ensures Linked(over', a + HEAD, Chain(a, b))
  {
    var l := Chain(a, b);
    assert SlotAt(a, 0, b) == a + HEAD;
    forall i, j | 0 <= i < j < |l| ensures l[i] != l[j] { SlotsDiffer(a, b, i, j); }
    forall i | 0 <= i < |l| ensures LinkIn(over', l, i) {
      assert StrungAt(over', a, b, i);
      SlotInside(b, a, i);
    }
  }

  /** The first `k` blocks of a new arena are linked up. */
  ghost predicate StrungSoFar(over: map<int, Overhead>, over': map<int, Overhead>, a: int, b: nat, k: nat)
    requires b < NBUCKETS
  {
    && over'.Keys == over.Keys + FirstAddresses(a, b, k)
    && (forall p :: p in over && p !in Addresses(a, b) ==> over'[p] == over[p])
    && forall i :: 0 <= i < k ==> StrungAt(over', a, b, i)
  }

  lemma StringOn(over: map<int, Overhead>, over': map<int, Overhead>, a: int, b: nat, k: nat)
    requires b < NBUCKETS && k < Count(b) && StrungSoFar(over, over', a, b, k)
    ensures StrungSoFar(over, over'[SlotAt(a, k, b) := Next(if k + 1 < Count(b) then SlotAt(a, k + 1, b) else NULL)], a, b, k + 1)
  {
    var more := over'[SlotAt(a, k, b) := Next(if k + 1 < Count(b) then SlotAt(a, k + 1, b) else NULL)];
    assert SlotAt(a, k, b) in Addresses(a, b);
    AnotherAddress(a, b, k);
    forall i | 0 <= i < k + 1 ensures StrungAt(more, a, b, i) {
      if i < k {
        assert StrungAt(over', a, b, i);
        SlotsDiffer(a, b, i, k);
      }
    }
  }

  /** An arena is carved into blocks of a bucket whose list has run out. */
  ghost function Carve(h: Heap, over: map<int, Overhead>, a: int, b: nat): Heap
    requires b < NBUCKETS == |h.nextf| == |h.free|
  {
    h.(nextf := h.nextf[b := a + HEAD], over := over, arenas := h.arenas[a := b], slots := h.slots + NewSlots(a, b),
       free := h.free[b := Chain(a, b)])
  }

  /** No block is where a new arena is. */
  lemma NewAddresses(h: Heap, a: int, b: nat, p: int)
    requires Sound(h) && b < NBUCKETS && Unused(h, a, ARENA, NULL) && p in Addresses(a, b)
    ensures p !in h.over && p !in h.slots && p - HEAD !in h.ring
  {
    OpenTiles(h);
    OpenBlocks(h);
    OpenRing(h);
    TiledMore(h.arenas, h.slots, a, b);
    NewSlotsInside(a, b, p);
    forall q | q in h.ring ensures q + HEAD != p { assert BigGood(h, q); }
  }

  lemma CarveLists(h: Heap, over: map<int, Overhead>, a: int, b: nat)
    requires Sound(h) && b < NBUCKETS && Unused(h, a, ARENA, NULL) && Strung(h.over, over, a, b)
    ensures Lists(Carve(h, over, a, b))
  {
    OpenLists(h);
    var h' := Carve(h, over, a, b);
    forall c | 0 <= c < NBUCKETS ensures ListGood(h'.over, h'.nextf[c], h'.free[c], h'.slots, c) {
      assert ListGood(h.over, h.nextf[c], h.free[c], h.slots, c);
      if c == b {
        ChainLinked(h.over, over, a, b);
        forall k | 0 <= k < Count(b) ensures SlotAt(a, k, b) in h'.slots && h'.slots[SlotAt(a, k, b)].bucket == b { NewSlotAt(a, b, k); }
      } else {
        forall p | p in h.free[c] ensures p !in Addresses(a, b) && p in h.over {
          ListedIsFree(h, c, p);
          if p in Addresses(a, b) { NewAddresses(h, a, b, p); }
        }
        LinkedKept(h.over, over, h.nextf[c], h.free[c]);
      }
    }
  }

  /** The new blocks are free. */
  lemma CarveNew(h: Heap, over: map<int, Overhead>, a: int, b: nat, p: int)
    requires Sound(h) && b < NBUCKETS && Unused(h, a, ARENA, NULL) && Strung(h.over, over, a, b) && p in Addresses(a, b)
    ensures var h' := Carve(h, over, a, b);
            p !in h.over && p - HEAD !in h.ring && p in over && over[p].Next? && p in h'.slots && SmallGood(h', p)
  {
    NewAddresses(h, a, b, p);
    var k :| 0 <= k < Count(b) && p == SlotAt(a, k, b);
    NewSlotAt(a, b, k);
    assert StrungAt(over, a, b, k) && Chain(a, b)[k] == p;
  }

  /** The others are what they were. */
  lemma CarveOld(h: Heap, over: map<int, Overhead>, a: int, b: nat, p: int)
    requires Sound(h) && b < NBUCKETS && h.free[b] == [] && Unused(h, a, ARENA, NULL) && Strung(h.over, over, a, b)
    requires p in h.slots && p !in Addresses(a, b)
    ensures SmallGood(Carve(h, over, a, b), p)
  {
    OpenBlocks(h);
    assert SmallGood(h, p);
  }

  lemma CarveBig(h: Heap, over: map<int, Overhead>, a: int, b: nat, q: int)
    requires Sound(h) && b < NBUCKETS && Unused(h, a, ARENA, NULL) && Strung(h.over, over, a, b) && q in h.ring
    ensures BigGood(Carve(h, over, a, b), q)
  {
    OpenBlocks(h);
    assert BigGood(h, q);
    if q + HEAD in Addresses(a, b) {
      NewAddresses(h, a, b, q + HEAD);
    }
  }

  lemma CarveBlocks(h: Heap, over: map<int, Overhead>, a: int, b: nat)
    requires Sound(h) && b < NBUCKETS && h.free[b] == [] && Unused(h, a, ARENA, NULL) && Strung(h.over, over, a, b)
    ensures Blocks(Carve(h, over, a, b))
  {
    var h' := Carve(h, over, a, b);
    forall p | p in h'.slots ensures SmallGood(h', p) {
      if p in Addresses(a, b) { CarveNew(h, over, a, b, p); } else { CarveOld(h, over, a, b, p); }
    }
    forall p | p in h'.over ensures p in h'.slots || p - HEAD in h'.ring {
      if p in Addresses(a, b) { CarveNew(h, over, a, b, p); } else { OpenBlocks(h); }
    }
    forall q | q in h'.ring ensures BigGood(h', q) { CarveBig(h, over, a, b, q); }
  }

  lemma CarvePlaces(h: Heap, over: map<int, Overhead>, a: int, b: nat)
    requires Sound(h) && b < NBUCKETS && Unused(h, a, ARENA, NULL)
    ensures Tiles(Carve(h, over, a, b)) && Regions(Carve(h, over, a, b))
  {
    OpenTiles(h);
    TiledMore(h.arenas, h.slots, a, b);
    OpenRegions(h);
    NullNotInRing(h);
    var h' := Carve(h, over, a, b);
    assert forall q :: Length(h', q) == Length(h, q);
  }

  lemma CarveSound(h: Heap, over: map<int, Overhead>, a: int, b: nat) returns (h': Heap)
    requires Sound(h) && b < NBUCKETS && h.nextf[b] == NULL && Unused(h, a, ARENA, NULL) && Strung(h.over, over, a, b)
    ensures h'.nextf == h.nextf[b := a + HEAD] && h'.over == over && h'.arenas == h.arenas[a := b]
    ensures h'.next == h.next && h'.prev == h.prev && h'.data == h.data && h'.ring == h.ring && h'.asked == h.asked
    ensures Sound(h') && Live(h') == Live(h)
  {
    h' := Carve(h, over, a, b);
    EmptyList(h, b);
    CarveLists(h, over, a, b);
    CarveBlocks(h, over, a, b);
    CarvePlaces(h, over, a, b);
    forall p | p in Addresses(a, b) ensures !InUse(h', p) && !InUse(h, p) { CarveNew(h, over, a, b, p); }
    LiveIs(h', Live(h));
  }

  // ----- big blocks

  /** A big block comes from the system. */
  ghost function AddBig(h: Heap, q: int, n: nat, d: seq<int>): Heap
    requires ANCHOR in h.next
  {
    var p := q + HEAD;
    h.(over := h.over[p := Used(BIG)], next := h.next[q := h.next[ANCHOR]][ANCHOR := q], prev := h.prev[q := ANCHOR][h.next[ANCHOR] := q],
       data := h.data[p := d], ring := [q] + h.ring, asked := h.asked[p := n])
  }

  /** What stands in front of a big block is nowhere near anything else. */
  lemma NewBig(h: Heap, q: int, n: nat, but: int)
    requires Sound(h) && Unused(h, q, BigSize(n), but)
    ensures q + HEAD !in h.slots && (forall r :: r in h.ring && r != but ==> r != q)
    ensures q + HEAD in h.over ==> q == but
  {
    NotASlot(h, q, n, but);
    OpenBlocks(h);
    forall r | r in h.ring && r != but ensures r != q { assert BigGood(h, r); }
  }

  lemma NotASlot(h: Heap, q: int, n: nat, but: int)
    requires Tiles(h) && Unused(h, q, BigSize(n), but)
    ensures q + HEAD !in h.slots
  {
    OpenTiles(h);
    if q + HEAD in h.slots {
      var s := h.slots[q + HEAD];
      assert SlotGood(h.arenas, q + HEAD, s);
      SlotInside(s.bucket, s.arena, s.k);
    }
  }

  /** One big block is new or has moved, and the others stay where they are. */
  lemma RegionsWith(h: Heap, h': Heap, q: int, n: nat, but: int)
    requires Regions(h) && Unused(h, q, BigSize(n), but) && h'.arenas == h.arenas && Length(h', q) == BigSize(n)
    requires forall r :: r in h'.ring && r != q ==> r in h.ring && r != but && Length(h', r) == Length(h, r)
    ensures Regions(h')
  {
    OpenRegions(h);
  }

  /** Big blocks have nothing to do with the free lists. */
  lemma BigLists(h: Heap, h': Heap)
    requires Sound(h) && h'.nextf == h.nextf && h'.free == h.free && h'.slots == h.slots
    requires forall x :: x in h.over && x in h.slots ==> x in h'.over && h'.over[x] == h.over[x]
    ensures Lists(h')
  {
    OpenLists(h);
    forall c | 0 <= c < NBUCKETS ensures ListGood(h'.over, h'.nextf[c], h'.free[c], h'.slots, c) {
      assert ListGood(h.over, h.nextf[c], h.free[c], h.slots, c);
      LinkedKept(h.over, h'.over, h.nextf[c], h.free[c]);
    }
  }

  /** Small blocks have nothing to do with big ones. */
  lemma BigSmalls(h: Heap, h': Heap)
    requires Sound(h) && h'.free == h.free && h'.slots == h.slots
    requires forall x :: x in h.slots && x in h.over ==> x in h'.over && h'.over[x] == h.over[x]
    requires forall x :: x in h.slots && x in h.asked ==> x in h'.asked && h'.asked[x] == h.asked[x]
    requires forall x :: x in h.slots && x in h.data ==> x in h'.data && h'.data[x] == h.data[x]
    ensures forall p :: p in h'.slots ==> SmallGood(h', p)
  {
    OpenBlocks(h);
    forall p | p in h'.slots ensures SmallGood(h', p) { assert SmallGood(h, p); }
  }

  lemma AddBigRing(h: Heap, q: int, n: nat, d: seq<int>)
    requires Sound(h) && q > 0 && q !in h.ring
    ensures ANCHOR in h.next && Ring(AddBig(h, q, n, d))
  {
    OpenRing(h);
    RingInsert(h.ring, h.next, h.prev, q);
  }

  lemma AddBigBlocks(h: Heap, q: int, n: nat, d: seq<int>)
    requires Sound(h) && ANCHOR in h.next && q + HEAD !in h.slots && q !in h.ring && |d| == n
    ensures Blocks(AddBig(h, q, n, d))
  {
    var h' := AddBig(h, q, n, d);
    BigSmalls(h, h');
    OpenBlocks(h);
    forall r | r in h'.ring ensures BigGood(h', r) { assert r != q ==> r in h.ring && BigGood(h, r); }
    assert h'.ring[0] == q && forall r :: r in h.ring ==> r in h'.ring;
  }

  lemma AddBigSound(h: Heap, q: int, n: nat, d: seq<int>)
    requires Sound(h) && Unused(h, q, BigSize(n), NULL) && |d| == n
    ensures ANCHOR in h.next && q + HEAD !in Live(h)
    ensures Sound(AddBig(h, q, n, d)) && Live(AddBig(h, q, n, d)) == Live(h)[q + HEAD := Block(n, d)]
  {
    NewBig(h, q, n, NULL);
    NullNotInRing(h);
    AddBigRing(h, q, n, d);
    var h' := AddBig(h, q, n, d);
    AddBigBlocks(h, q, n, d);
    BigLists(h, h');
    RegionsWith(h, h', q, n, NULL);
    LiveIs(h', Live(h)[q + HEAD := Block(n, d)]);
  }

  lemma NullNotInRing(h: Heap)
    requires Ring(h)
    ensures NULL !in h.ring
  {
    OpenRing(h);
  }

  /** A big block goes back to the system. */
  ghost function RemoveBig(h: Heap, k: nat): Heap
    requires k < |h.ring| && h.ring[k] in h.next && h.ring[k] in h.prev
  {
    var q := h.ring[k];
    h.(over := h.over - {q + HEAD}, next := h.next[h.prev[q] := h.next[q]], prev := h.prev[h.next[q] := h.prev[q]],
       ring := h.ring[..k] + h.ring[k + 1..])
  }

  lemma RemoveBigRing(h: Heap, k: nat)
    requires Sound(h) && k < |h.ring|
    ensures h.ring[k] in h.next && h.ring[k] in h.prev && Ring(RemoveBig(h, k))
    ensures forall q :: q in RemoveBig(h, k).ring <==> q in h.ring && q != h.ring[k]
  {
    OpenRing(h);
    RingRemove(h.ring, h.next, h.prev, k);
    Removed(h.ring, k);
  }

  lemma RemoveBigBlocks(h: Heap, k: nat)
    requires Sound(h) && k < |h.ring| && h.ring[k] in h.next && h.ring[k] in h.prev && h.ring[k] + HEAD !in h.slots
    requires forall q :: q in RemoveBig(h, k).ring <==> q in h.ring && q != h.ring[k]
    ensures Blocks(RemoveBig(h, k))
  {
    var h' := RemoveBig(h, k);
    BigSmalls(h, h');
    OpenBlocks(h);
    forall r | r in h'.ring ensures BigGood(h', r) { assert BigGood(h, r); }
  }

  lemma BigIsNoSlot(h: Heap, q: int)
    requires Blocks(h) && q in h.ring
    ensures q + HEAD !in h.slots
  {
    OpenBlocks(h);
    assert BigGood(h, q);
  }

  lemma RemoveBigSound(h: Heap, k: nat)
    requires Sound(h) && k < |h.ring|
    ensures h.ring[k] in h.next && h.ring[k] in h.prev
    ensures Sound(RemoveBig(h, k)) && Live(RemoveBig(h, k)) == Live(h) - {h.ring[k] + HEAD}
  {
    RemoveBigRing(h, k);
    var h' := RemoveBig(h, k);
    BigIsNoSlot(h, h.ring[k]);
    RemoveBigBlocks(h, k);
    BigLists(h, h');
    RegionsSame(h, h');
    LiveIs(h', Live(h) - {h.ring[k] + HEAD});
  }

  lemma Removed(ring: seq<int>, k: nat)
    requires k < |ring| && forall i, j :: 0 <= i < j < |ring| ==> ring[i] != ring[j]
    ensures forall q :: q in ring[..k] + ring[k + 1..] <==> q in ring && q != ring[k]
  {
    var fewer := ring[..k] + ring[k + 1..];
    forall q | q in ring && q != ring[k] ensures q in fewer {
      var i :| 0 <= i < |ring| && ring[i] == q;
      assert fewer[if i < k then i else i - 1] == q;
    }
  }

  /** A big block is given another size, and perhaps another place, by the system. */
  ghost function MoveBig(h: Heap, k: nat, q: int, n: nat, d: seq<int>): Heap
    requires k < |h.ring| && h.ring[k] in h.next && h.ring[k] in h.prev
  {
    var was := h.ring[k];
    h.(over := (h.over - {was + HEAD})[q + HEAD := Used(BIG)],
       next := if q == was then h.next else h.next[q := h.next[was]][h.prev[was] := q],
       prev := if q == was then h.prev else h.prev[q := h.prev[was]][h.next[was] := q],
       data := h.data[q + HEAD := d], ring := h.ring[k := q], asked := h.asked[q + HEAD := n])
  }

  /** `q` has taken the place of `was`. */
  ghost predicate Swapped(ring: seq<int>, now: seq<int>, was: int, q: int) {
    forall r :: r in now <==> r == q || (r in ring && r != was)
  }

  lemma MoveBigRing(h: Heap, k: nat, q: int, n: nat, d: seq<int>)
    requires Sound(h) && k < |h.ring| && q > 0 && forall r :: r in h.ring && r != h.ring[k] ==> r != q
    ensures h.ring[k] in h.next && h.ring[k] in h.prev && Ring(MoveBig(h, k, q, n, d))
    ensures Swapped(h.ring, h.ring[k := q], h.ring[k], q)
    ensures var before := h.prev[h.ring[k]]; before in h.next && h.next[before] == h.ring[k] && before != q
  {
    OpenRing(h);
    Replaced(h.ring, k, q);
    RingAround(h.ring, h.next, h.prev, k);
    assert k > 0 ==> h.ring[k - 1] in h.ring && h.ring[k - 1] != h.ring[k];
    if q == h.ring[k] {
      RingRemove(h.ring, h.next, h.prev, k);
      assert h.ring[k := q] == h.ring;
    } else {
      RingReplace(h.ring, h.next, h.prev, k, q);
    }
  }

  lemma MoveBigBlocks(h: Heap, k: nat, q: int, n: nat, d: seq<int>)
    requires Sound(h) && k < |h.ring| && h.ring[k] in h.next && h.ring[k] in h.prev && |d| == n
    requires q + HEAD !in h.slots && h.ring[k] + HEAD !in h.slots && forall r :: r in h.ring && r != h.ring[k] ==> r != q
    requires Swapped(h.ring, h.ring[k := q], h.ring[k], q)
    ensures Blocks(MoveBig(h, k, q, n, d))
  {
    var h' := MoveBig(h, k, q, n, d);
    BigSmalls(h, h');
    MoveBigBigs(h, k, q, n, d);
    forall p | p in h'.over ensures p in h'.slots || p - HEAD in h'.ring { MoveBigKnown(h, k, q, n, d, p); }
    assert |h'.free| == NBUCKETS;
  }

  lemma MoveBigKnown(h: Heap, k: nat, q: int, n: nat, d: seq<int>, p: int)
    requires Sound(h) && k < |h.ring| && h.ring[k] in h.next && h.ring[k] in h.prev
    requires Swapped(h.ring, h.ring[k := q], h.ring[k], q)
    requires p in MoveBig(h, k, q, n, d).over
    ensures p in h.slots || p - HEAD in h.ring[k := q]
  {
    if p == q + HEAD {
      assert h.ring[k := q][k] == q;
    } else {
      OpenBlocks(h);
    }
  }

  lemma MoveBigBigs(h: Heap, k: nat, q: int, n: nat, d: seq<int>)
    requires Sound(h) && k < |h.ring| && h.ring[k] in h.next && h.ring[k] in h.prev && |d| == n
    requires q + HEAD !in h.slots && forall r :: r in h.ring && r != h.ring[k] ==> r != q
    requires Swapped(h.ring, h.ring[k := q], h.ring[k], q)
    ensures forall r :: r in MoveBig(h, k, q, n, d).ring ==> BigGood(MoveBig(h, k, q, n, d), r)
  {
    OpenBlocks(h);
    var h' := MoveBig(h, k, q, n, d);
    forall r | r in h'.ring ensures BigGood(h', r) { assert r != q ==> r in h.ring && BigGood(h, r); }
  }

  /** What is to be done when the system has moved big block `was` to `q`. */
  lemma MoveBigSound(h: Heap, was: int, q: int, n: nat, d: seq<int>) returns (h': Heap)
    requires Sound(h) && was in h.ring && Unused(h, q, BigSize(n), was) && |d| == n
    ensures was in h.next && was in h.prev && h.prev[was] in h.next && h.next[h.prev[was]] == was && h.prev[was] != q
    ensures h'.nextf == h.nextf && h'.arenas == h.arenas && h'.slots == h.slots && h'.free == h.free
    ensures h'.over == (h.over - {was + HEAD})[q + HEAD := Used(BIG)] && h'.data == h.data[q + HEAD := d] && h'.asked == h.asked[q + HEAD := n]
    ensures h'.next == if q == was then h.next else h.next[q := h.next[was]][h.prev[was] := q]
    ensures h'.prev == if q == was then h.prev else h.prev[q := h.prev[was]][h.next[was] := q]
    ensures Sound(h') && Live(h') == (Live(h) - {was + HEAD})[q + HEAD := Block(n, d)] && (q == was || q + HEAD !in Live(h))
  {
    var k :| 0 <= k < |h.ring| && h.ring[k] == was;
    NewBig(h, q, n, was);
    BigIsNoSlot(h, was);
    MoveBigRing(h, k, q, n, d);
    MoveBigBlocks(h, k, q, n, d);
    h' := MoveBig(h, k, q, n, d);
    BigLists(h, h');
    RegionsWith(h, h', q, n, was);
    LiveIs(h', (Live(h) - {was + HEAD})[q + HEAD := Block(n, d)]);
  }

  lemma Replaced(ring: seq<int>, k: nat, q: int)
    requires k < |ring| && forall i, j :: 0 <= i < j < |ring| ==> ring[i] != ring[j]
    ensures Swapped(ring, ring[k := q], ring[k], q)
  {
    var now := ring[k := q];
    forall r | r in ring && r != ring[k] ensures r in now {
      var i :| 0 <= i < |ring| && ring[i] == r;
      assert now[i] == r;
    }
    assert now[k] == q;
  }
}

/** The memory of the power-of-two allocator, on values: the sizes of its buckets, and the
    small blocks that arenas are carved into. */
module AllocFacts {
  /** What stands in front of a block: a link while it is free, its bucket while it is in use. */
  datatype Overhead = Next(next: int) | Used(index: nat)

  /** A small block: the `k`-th of those that an arena was carved into. */
  datatype Slot = Slot(arena: int, k: nat, bucket: nat)

  const NULL := 0

  /** The bucket index of blocks that are not in a bucket. */
  const BIG := 0xff

  /** The size of the links in front of what comes from the system, and of what stands in
      front of a block; the least block is no more than that. Pointers have 64 bits. */
  const HEAD := 16
  const OVERHEAD := 16
  const MINBLOCK := 16

  /** Where the anchor of the ring is. */
  const ANCHOR := -1

  const UINT_MAX := 0xffff_ffff

  function Pow2(n: nat): (p: nat)
    ensures p >= 1
  {
    if n == 0 then 1 else 2 * Pow2(n - 1)
  }

  lemma {:induction false} Pow2Adds(a: nat, b: nat)
    ensures Pow2(a + b) == Pow2(a) * Pow2(b)
  {
    if a > 0 {
      Pow2Adds(a - 1, b);
      assert Pow2(a + b) == 2 * (Pow2(a - 1) * Pow2(b)) == Pow2(a) * Pow2(b);
    }
  }

  lemma {:induction false} Pow2Grows(a: nat, b: nat)
    requires a <= b
    ensures Pow2(a) <= Pow2(b)
  {
    if a < b {
      Pow2Grows(a, b - 1);
    }
  }

  // ----- buckets

  /** The first bucket that has blocks. */
  const FIRST := MINBLOCK / 16

  const NBUCKETS := 13 - MINBLOCK / 16

  /** What an arena holds; requests of that size are served by the system. */
  const MAXMALLOC := 16384

  function Size(b: nat): (s: nat)
    ensures s >= 1
  {
    Pow2(b + 3)
  }

  lemma SizesOfEnds()
    ensures Size(FIRST) == MINBLOCK && Size(NBUCKETS - 1) == MAXMALLOC
  {
    assert Pow2(4) == 16;
    Pow2Adds(7, 7);
    assert Pow2(3) == 8;
    assert Pow2(7) == 128 by { assert Pow2(5) == 32; }
  }

  /** The sizes of all buckets that have blocks. */
  lemma BucketSizes()
    ensures FIRST == 1 && NBUCKETS == 12
    ensures Size(1) == 16 && Size(2) == 32 && Size(3) == 64 && Size(4) == 128 && Size(5) == 256 && Size(6) == 512
    ensures Size(7) == 1024 && Size(8) == 2048 && Size(9) == 4096 && Size(10) == 8192 && Size(11) == 16384
  {
    SizesOfEnds();
    forall b: nat ensures Size(b + 1) == 2 * Size(b) {
    }
    assert Size(2) == 2 * Size(1) && Size(3) == 2 * Size(2) && Size(4) == 2 * Size(3) && Size(5) == 2 * Size(4) && Size(6) == 2 * Size(5);
    assert Size(7) == 2 * Size(6) && Size(8) == 2 * Size(7) && Size(9) == 2 * Size(8) && Size(10) == 2 * Size(9) && Size(11) == 2 * Size(10);
  }

  /** The bucket is the least one whose blocks hold `n` bytes and the overhead. */
  predicate Least(n: nat, b: nat) {
    n + OVERHEAD <= Size(b) && FIRST <= b && (b > FIRST ==> Size(b - 1) < n + OVERHEAD)
  }

  /** The block is not too small, nor is more than half of it wasted. */
  predicate Fits(n: nat, b: nat) { n + OVERHEAD <= Size(b) <= 2 * (n + OVERHEAD) }

  lemma LeastFits(n: nat, b: nat)
    requires Least(n, b)
    ensures Fits(n, b)
  {
    SizesOfEnds();
    if b > FIRST {
      assert Size(b) == 2 * Size(b - 1);
    }
  }

  /** No smaller bucket would do. */
  lemma LeastIsLeast(n: nat, b: nat, c: nat)
    requires Least(n, b) && FIRST <= c && n + OVERHEAD <= Size(c)
    ensures b <= c
  {
    if c < b {
      Pow2Grows(c + 3, b + 2);
    }
  }

  function Count(b: nat): (n: nat)
    requires b < NBUCKETS
    ensures n >= 1
  {
    Pow2(NBUCKETS - 1 - b)
  }

  /** The blocks of a bucket fill an arena exactly. */
  lemma CountFills(b: nat)
    requires b < NBUCKETS
    ensures Count(b) * Size(b) == MAXMALLOC && MAXMALLOC / Size(b) == Count(b)
  {
    SizesOfEnds();
    Pow2Adds(NBUCKETS - 1 - b, b + 3);
    Divided(MAXMALLOC, Size(b), Count(b));
  }

  lemma Divided(x: nat, d: nat, q: nat)
    requires d >= 1 && x == q * d
    ensures x / d == q
  {
    var r := x / d - q;
    assert d * r == -(x % d);
    Scaled(d, r);
  }

  lemma Scaled(d: nat, r: int)
    requires d >= 1
    ensures r > 0 ==> d * r >= d
    ensures r < 0 ==> d * r <= 0 - d
  {
  }

  // ----- tiles

  function SlotAt(a: int, k: int, b: nat): int { a + HEAD + k * Size(b) }

  ghost predicate SlotGood(arenas: map<int, nat>, p: int, s: Slot)
  {
    s.arena in arenas && arenas[s.arena] == s.bucket < NBUCKETS && s.k < Count(s.bucket) && p == SlotAt(s.arena, s.k, s.bucket)
  }

  ghost predicate HasSlots(slots: map<int, Slot>, a: int, b: nat)
    requires b < NBUCKETS
  {
    forall k {:trigger SlotAt(a, k, b)} :: 0 <= k < Count(b) ==> SlotAt(a, k, b) in slots
  }

  /** The two stretches of memory have nothing in common. */
  predicate Apart(a: int, n: int, b: int, l: int) { a + n <= b || b + l <= a }

  const ARENA := HEAD + MAXMALLOC

  /** The small blocks are what the arenas were carved into. */
  ghost predicate Tiled(arenas: map<int, nat>, slots: map<int, Slot>)
  {
    && (forall a :: a in arenas ==> a > 0 && arenas[a] < NBUCKETS && HasSlots(slots, a, arenas[a]))
    && (forall a, b :: a in arenas && b in arenas && a != b ==> Apart(a, ARENA, b, ARENA))
    && forall p :: p in slots ==> SlotGood(arenas, p, slots[p])
  }

  /** A block lies inside its arena. */
  lemma SlotInside(b: nat, a: int, k: nat)
    requires b < NBUCKETS && k < Count(b)
    ensures a + HEAD <= SlotAt(a, k, b) && SlotAt(a, k, b) + Size(b) <= a + ARENA
  {
    CountFills(b);
    Steps(k, Count(b), Size(b));
  }

  lemma Steps(k: nat, n: nat, s: nat)
    requires k < n
    ensures k * s + s <= n * s
  {
    assert n * s == k * s + (n - k) * s;
    assert (n - k - 1) * s >= 0;
  }

  /** Different small blocks have no memory in common. */
  lemma SlotsApart(arenas: map<int, nat>, slots: map<int, Slot>, p: int, q: int)
    requires Tiled(arenas, slots) && p in slots && q in slots && p != q
    ensures Apart(p, Size(slots[p].bucket), q, Size(slots[q].bucket))
  {
    var s, t := slots[p], slots[q];
    assert SlotGood(arenas, p, s) && SlotGood(arenas, q, t);
    if s.arena != t.arena {
      SlotInside(s.bucket, s.arena, s.k);
      SlotInside(t.bucket, t.arena, t.k);
    } else if s.k < t.k {
      Steps(s.k, t.k, Size(s.bucket));
    } else if t.k < s.k {
      Steps(t.k, s.k, Size(s.bucket));
    }
  }

  /** Every byte of an arena belongs to a small block. */
  lemma EveryByte(arenas: map<int, nat>, slots: map<int, Slot>, a: int, x: int) returns (p: int)
    requires Tiled(arenas, slots) && a in arenas && a + HEAD <= x < a + ARENA
    ensures p in slots && p <= x < p + Size(slots[p].bucket)
  {
    var b := arenas[a];
    assert HasSlots(slots, a, b);
    CountFills(b);
    var k := Quotient(x - a - HEAD, Size(b), Count(b));
    p := SlotAt(a, k, b);
    SlotUnique(arenas, slots, p, a, k);
  }

  lemma Quotient(d: nat, s: nat, n: nat) returns (k: nat)
    requires s >= 1 && d < n * s
    ensures k < n && k * s <= d < k * s + s
  {
    k := d / s;
    assert d == s * k + d % s;
    InOrder(n, k, s);
  }

  lemma InOrder(a: int, b: int, s: nat)
    ensures a <= b ==> a * s <= b * s
  {
  }

  lemma SlotUnique(arenas: map<int, nat>, slots: map<int, Slot>, p: int, a: int, k: nat)
    requires Tiled(arenas, slots) && a in arenas && k < Count(arenas[a])
    requires p == SlotAt(a, k, arenas[a]) && p in slots
    ensures slots[p] == Slot(a, k, arenas[a])
  {
    var s, b := slots[p], arenas[a];
    assert SlotGood(arenas, p, s);
    SlotInside(s.bucket, s.arena, s.k);
    SlotInside(b, a, k);
    assert s.arena == a;
    if s.k < k { Steps(s.k, k, Size(b)); }
    if k < s.k { Steps(k, s.k, Size(b)); }
  }

  // ----- a new arena

  /** Where the first `n` blocks of a new arena are. */
  function FirstAddresses(a: int, b: nat, n: int): set<int> {
    set k | 0 <= k < n :: SlotAt(a, k, b)
  }

  lemma AnotherAddress(a: int, b: nat, k: nat)
    ensures FirstAddresses(a, b, k + 1) == FirstAddresses(a, b, k) + {SlotAt(a, k, b)}
  {
    forall p | p in FirstAddresses(a, b, k + 1) ensures p in FirstAddresses(a, b, k) + {SlotAt(a, k, b)} {
      var i :| 0 <= i < k + 1 && p == SlotAt(a, i, b);
    }
  }

  lemma SlotsDiffer(a: int, b: nat, i: nat, k: nat)
    requires i < k
    ensures SlotAt(a, i, b) != SlotAt(a, k, b)
  {
    Steps(i, k, Size(b));
  }

  /** Where the blocks of a new arena are. */
  function Addresses(a: int, b: nat): set<int>
    requires b < NBUCKETS
  {
    FirstAddresses(a, b, Count(b))
  }

  ghost function NewSlots(a: int, b: nat): map<int, Slot>
    requires b < NBUCKETS
  {
    map p | p in Addresses(a, b) :: var k := (p - a - HEAD) / Size(b); Slot(a, if k < 0 then 0 else k, b)
  }

  lemma NewSlotAt(a: int, b: nat, k: nat)
    requires b < NBUCKETS && k < Count(b)
    ensures SlotAt(a, k, b) in NewSlots(a, b) && NewSlots(a, b)[SlotAt(a, k, b)] == Slot(a, k, b)
  {
    assert SlotAt(a, k, b) in Addresses(a, b);
    Divided(k * Size(b), Size(b), k);
  }

  lemma NewSlotsInside(a: int, b: nat, p: int)
    requires b < NBUCKETS && p in Addresses(a, b)
    ensures a + HEAD <= p < a + ARENA
  {
    var k :| 0 <= k < Count(b) && p == SlotAt(a, k, b);
    SlotInside(b, a, k);
  }

  lemma TiledMore(arenas: map<int, nat>, slots: map<int, Slot>, a: int, b: nat)
    requires Tiled(arenas, slots) && b < NBUCKETS && a > 0
    requires forall x :: x in arenas ==> Apart(a, ARENA, x, ARENA)
    ensures Tiled(arenas[a := b], slots + NewSlots(a, b))
    ensures forall p :: p in Addresses(a, b) ==> p !in slots
  {
    var arenas', slots' := arenas[a := b], slots + NewSlots(a, b);
    forall p | p in Addresses(a, b) ensures p !in slots {
      NewSlotsInside(a, b, p);
      if p in slots {
        assert SlotGood(arenas, p, slots[p]);
        SlotInside(slots[p].bucket, slots[p].arena, slots[p].k);
      }
    }
    forall x | x in arenas' ensures HasSlots(slots', x, arenas'[x]) {
      if x != a {
        assert HasSlots(slots, x, arenas[x]);
      } else {
        forall k | 0 <= k < Count(b) ensures SlotAt(a, k, b) in slots' { NewSlotAt(a, b, k); }
      }
    }
    forall p | p in slots' ensures SlotGood(arenas', p, slots'[p]) {
      if p in NewSlots(a, b) {
        var k :| 0 <= k < Count(b) && p == SlotAt(a, k, b);
        NewSlotAt(a, b, k);
      } else {
        assert SlotGood(arenas, p, slots[p]);
      }
    }
  }
}

/** The power-of-two allocator. What the system gives is a parameter: the address of memory
    that it has not handed out already, or NULL. */
module Allocator {
  import opened AllocFacts
  import opened AllocLinks
  import opened AllocHeap

  /** What is asked of the system for `n` bytes. */
  function Wanted(n: nat): int { if n >= MAXMALLOC - OVERHEAD then BigSize(n) else ARENA }

  function Shorter(a: int, b: int): int { if a < b then a else b }

  /** Whether a block of bucket `i` is kept for a request of `n` bytes. */
  predicate Cheap(n: nat, i: nat) { n + OVERHEAD <= Size(i) && !(i > 0 && n + OVERHEAD < Size(i) / 2) }

  lemma CheapFits(n: nat, i: nat)
    requires Cheap(n, i) && FIRST <= i
    ensures Fits(n, i)
  {
    var half := Pow2(i + 2);
    assert Size(i) == 2 * half;
    Halved(Size(i), half);
  }

  lemma Halved(s: nat, half: nat)
    requires s == 2 * half
    ensures s / 2 == half
  {
  }

  /** The first `k` bytes are the same. */
  ghost predicate SamePrefix(a: seq<int>, b: seq<int>, k: int) {
    0 <= k <= |a| && k <= |b| && a[..k] == b[..k]
  }

  class Allocator {
    var nextf: seq<int>
    var over: map<int, Overhead>
    var blockList: seq<int>
    var next: map<int, int>
    var prev: map<int, int>
    var data: map<int, seq<int>>
    ghost var arenas: map<int, nat>
    ghost var slots: map<int, Slot>
    ghost var free: seq<seq<int>>
    ghost var ring: seq<int>
    ghost var asked: map<int, nat>

    ghost function Now(): Heap
      reads this
    {
      Heap(nextf, over, next, prev, data, arenas, slots, free, ring, asked)
    }

    ghost predicate Valid()
      reads this
    {
      Sound(Now()) && forall a :: a in blockList <==> a in arenas
    }

    /** Block `p` has room for the `n` bytes that were asked for. */
    ghost predicate Serves(p: int, n: nat)
      reads this
    {
      p in over && over[p].Used? && p in asked && p in data && asked[p] == n <= |data[p]|
    }

    constructor ()
      ensures Valid() && Live(Now()) == map[]
    {
      nextf, over, blockList := seq(NBUCKETS, _ => NULL), map[], [];
      next, prev, data := map[ANCHOR := ANCHOR], map[ANCHOR := ANCHOR], map[];
      arenas, slots, free, ring, asked := map[], map[], seq(NBUCKETS, _ => []), [], map[];
      new;
      assert forall b :: 0 <= b < NBUCKETS ==> ListGood(over, nextf[b], free[b], slots, b);
      assert RingLink(ring, next, prev, -1);
      LiveIs(Now(), map[]);
    }

    // ----- allocation

    /** Carve memory from the system into blocks for a bucket that has none left. */
    method MoreCore(bucket: nat, core: int)
      requires Valid() && bucket < NBUCKETS && nextf[bucket] == NULL
      requires core != NULL ==> Unused(Now(), core, ARENA, NULL)
      modifies this`nextf, this`over, this`blockList, this`arenas, this`slots, this`free
      ensures Valid() && Live(Now()) == old(Live(Now()))
      ensures if core == NULL then Now() == old(Now()) else nextf == old(nextf)[bucket := core + HEAD]
    {
      if core == NULL {
        return;
      }
      ghost var h := Now();
      blockList := [core] + blockList;
      nextf := nextf[bucket := core + HEAD];
      String(core, bucket);
      ghost var h' := CarveSound(h, over, core, bucket);
      arenas, slots, free := h'.arenas, h'.slots, h'.free;
      assert Now() == h';
    }

    /** Link the new blocks one after the other. */
    method String(core: int, bucket: nat)
      requires bucket < NBUCKETS
      modifies this`over
      ensures Strung(old(over), over, core, bucket)
    {
      var size := Size(bucket);
      var numBlocks := MAXMALLOC / size;
      CountFills(bucket);
      var overPtr := core + HEAD;
      ghost var k, was := 0, over;
      numBlocks := numBlocks - 1;
      while numBlocks > 0
        invariant k + numBlocks + 1 == Count(bucket) && numBlocks >= 0 && overPtr == SlotAt(core, k, bucket)
        invariant StrungSoFar(was, over, core, bucket, k)
        decreases numBlocks
      {
        StringOn(was, over, core, bucket, k);
        NextSlot(core, k, bucket);
        over := over[overPtr := Next(overPtr + size)];
        overPtr := overPtr + size;
        k := k + 1;
        numBlocks := numBlocks - 1;
      }
      StringOn(was, over, core, bucket, k);
      over := over[overPtr := Next(NULL)];
    }

    lemma NextSlot(a: int, k: nat, b: nat)
      ensures SlotAt(a, k + 1, b) == SlotAt(a, k, b) + Size(b)
    {
    }

    /** The contents of a new block are whatever was there. */
    method Anything(n: nat) returns (d: seq<int>)
      ensures |d| == n
    {
      assert |seq(n, _ => 0)| == n;
      d :| |d| == n;
    }

    /** A request of MAXMALLOC or more goes to the system. */
    method AllocBig(n: nat, core: int) returns (r: int)
      requires Valid() && n <= UINT_MAX && (core != NULL ==> Unused(Now(), core, BigSize(n), NULL))
      modifies this`next, this`prev, this`over, this`data, this`ring, this`asked
      ensures Valid()
      ensures r == NULL <==> n > UINT_MAX - OVERHEAD - HEAD || core == NULL
      ensures r == NULL ==> Now() == old(Now())
      ensures r != NULL ==> r == core + HEAD + OVERHEAD && r - OVERHEAD !in old(Live(Now())) && Serves(r - OVERHEAD, n) && over[r - OVERHEAD].index == BIG
      ensures r != NULL ==> Live(Now()) == old(Live(Now()))[r - OVERHEAD := BlockAt(Now(), r - OVERHEAD)]
    {
      if n > UINT_MAX - OVERHEAD - HEAD || core == NULL {
        return NULL;
      }
      ghost var h := Now();
      var d := Anything(n);
      AddBigSound(h, core, n, d);
      ghost var h' := AddBig(h, core, n, d);
      var first := next[ANCHOR];
      next := next[core := first];
      next := next[ANCHOR := core];
      prev := prev[core := ANCHOR];
      prev := prev[first := core];
      var overPtr := core + HEAD;
      over := over[overPtr := Used(BIG)];
      data := data[overPtr := d];
      ring, asked := h'.ring, h'.asked;
      assert Now() == h';
      r := overPtr + OVERHEAD;
    }

    /** The least bucket whose blocks are large enough. */
    method BucketFor(n: nat) returns (bucket: nat)
      requires n < MAXMALLOC - OVERHEAD
      ensures Least(n, bucket) && bucket < NBUCKETS
    {
      SizesOfEnds();
      var amount := MINBLOCK;
      bucket := MINBLOCK / 16;
      while n + OVERHEAD > amount
        invariant FIRST <= bucket < NBUCKETS && amount == Size(bucket) && (bucket > FIRST ==> Size(bucket - 1) < n + OVERHEAD)
        decreases n + OVERHEAD - amount
      {
        amount := 2 * amount;
        bucket := bucket + 1;
      }
    }

    /** Take the first block of a list. */
    method TakeFirst(bucket: nat, n: nat) returns (r: int)
      requires Valid() && bucket < NBUCKETS && nextf[bucket] != NULL && Least(n, bucket)
      modifies this`nextf, this`over, this`data, this`free, this`asked
      ensures Valid() && r == old(nextf)[bucket] + OVERHEAD && r != NULL && r - OVERHEAD !in old(Live(Now())) && Serves(r - OVERHEAD, n) && over[r - OVERHEAD].index == bucket
      ensures Live(Now()) == old(Live(Now()))[r - OVERHEAD := BlockAt(Now(), r - OVERHEAD)]
    {
      ghost var h := Now();
      var overPtr := nextf[bucket];
      LeastFits(n, bucket);
      var d := Anything(Size(bucket) - OVERHEAD);
      TakeSound(h, bucket, n, d);
      ghost var h' := Take(h, bucket, n, d);
      nextf := nextf[bucket := over[overPtr].next];
      over := over[overPtr := Used(bucket)];
      data := data[overPtr := d];
      free, asked := h'.free, h'.asked;
      assert Now() == h';
      r := overPtr + OVERHEAD;
    }

    /** A smaller request is served from the list of its bucket. */
    method AllocSmall(n: nat, core: int) returns (r: int)
      requires Valid() && n < MAXMALLOC - OVERHEAD && (core != NULL ==> Unused(Now(), core, ARENA, NULL))
      modifies this
      ensures Valid()
      ensures r == NULL ==> core == NULL && Live(Now()) == old(Live(Now()))
      ensures r != NULL ==> r - OVERHEAD !in old(Live(Now())) && Serves(r - OVERHEAD, n)
      ensures r != NULL ==> var i := over[r - OVERHEAD].index; i < NBUCKETS && Least(n, i) && r - OVERHEAD == if old(nextf)[i] != NULL then old(nextf)[i] else core + HEAD
      ensures r != NULL ==> Live(Now()) == old(Live(Now()))[r - OVERHEAD := BlockAt(Now(), r - OVERHEAD)]
    {
      var bucket := BucketFor(n);
      if nextf[bucket] == NULL {
        MoreCore(bucket, core);
        if nextf[bucket] == NULL {
          return NULL;
        }
      }
      r := TakeFirst(bucket, n);
    }

    /** TclpAlloc: a block that is not in use, of the least sufficient size. */
    method Alloc(n: nat, core: int) returns (r: int)
      requires Valid() && n <= UINT_MAX && (core != NULL ==> Unused(Now(), core, Wanted(n), NULL))
      modifies this
      ensures Valid()
      ensures r == NULL ==> core == NULL || n > UINT_MAX - OVERHEAD - HEAD
      ensures r == NULL ==> Live(Now()) == old(Live(Now()))
      ensures r != NULL ==> r - OVERHEAD !in old(Live(Now())) && Serves(r - OVERHEAD, n)
      ensures r != NULL ==> var i := over[r - OVERHEAD].index;
                            if n >= MAXMALLOC - OVERHEAD then i == BIG && r - OVERHEAD == core + HEAD
                            else i < NBUCKETS && Least(n, i) && r - OVERHEAD == if old(nextf)[i] != NULL then old(nextf)[i] else core + HEAD
      ensures r != NULL ==> Live(Now()) == old(Live(Now()))[r - OVERHEAD := BlockAt(Now(), r - OVERHEAD)]
    {
      if n >= MAXMALLOC - OVERHEAD {
        r := AllocBig(n, core);
      } else {
        r := AllocSmall(n, core);
      }
    }

    // ----- release

    /** TclpFree: the block is in use no more; a pointer to a block that is not in use is ignored. */
    method Free(r: int)
      requires Valid() && (r != NULL ==> r - OVERHEAD in over)
      modifies this
      ensures Valid() && Live(Now()) == old(Live(Now())) - {r - OVERHEAD}
      ensures r == NULL || old(over)[r - OVERHEAD].Next? ==> unchanged(this)
      ensures r != NULL && old(over)[r - OVERHEAD].Used? && old(over)[r - OVERHEAD].index < NBUCKETS ==>
        nextf == old(nextf)[old(over)[r - OVERHEAD].index := r - OVERHEAD]
    {
      var p := r - OVERHEAD;
      if r == NULL {
        NoBlockAtNull();
        return;
      }
      if over[p].Next? {
        return;
      }
      ghost var h := Now();
      UsedBlock(h, p);
      var size := over[p].index;
      if size == BIG {
        FreeBig(p - HEAD);
        return;
      }
      GiveBackSound(h, p);
      ghost var h' := GiveBack(h, p);
      over := over[p := Next(nextf[size])];
      nextf := nextf[size := p];
      free := h'.free;
      assert Now() == h';
    }

    lemma NoBlockAtNull()
      requires Valid()
      ensures NULL - OVERHEAD !in Live(Now())
    {
      if NULL - OVERHEAD in Live(Now()) { UsedBlock(Now(), NULL - OVERHEAD); }
    }

    /** A big block is taken out of the ring and given back to the system. */
    method FreeBig(q: int)
      requires Valid() && q in ring
      modifies this`next, this`prev, this`over, this`ring
      ensures Valid() && Live(Now()) == old(Live(Now())) - {q + HEAD}
    {
      ghost var h := Now();
      ghost var k :| 0 <= k < |ring| && ring[k] == q;
      RemoveBigSound(h, k);
      ghost var h' := RemoveBig(h, k);
      var before, after := prev[q], next[q];
      next := next[before := after];
      prev := prev[after := before];
      over := over - {q + HEAD};
      ring := h'.ring;
      assert Now() == h';
    }

    // ----- another size

    /** The system gives a big block another size, and perhaps another place, to which it takes
        the links and the bytes along; if it has moved, the neighbours in the ring are told. */
    method ReallocBig(q: int, n: nat, core: int, content: seq<int>) returns (r: int)
      requires Valid() && q in ring && (core != NULL ==> |content| == n && Unused(Now(), core, BigSize(n), q))
      modifies this`next, this`prev, this`over, this`data, this`ring, this`asked
      ensures Valid()
      ensures r == if core == NULL then NULL else core + HEAD + OVERHEAD
      ensures core == NULL ==> Now() == old(Now())
      ensures core != NULL ==> Serves(core + HEAD, n) && data[core + HEAD] == content && (core == q || core + HEAD !in old(Live(Now())))
      ensures core != NULL ==> Live(Now()) == (old(Live(Now())) - {q + HEAD})[core + HEAD := BlockAt(Now(), core + HEAD)]
    {
      if core == NULL {
        return NULL;
      }
      Settle(q, n, core, content);
      r := core + HEAD + OVERHEAD;
    }

    /** A big block has been moved by the system. */
    method Settle(q: int, n: nat, core: int, content: seq<int>)
      requires Valid() && q in ring && |content| == n && Unused(Now(), core, BigSize(n), q)
      modifies this`next, this`prev, this`over, this`data, this`ring, this`asked
      ensures Valid() && Serves(core + HEAD, n) && data[core + HEAD] == content
      ensures core == q || core + HEAD !in old(Live(Now()))
      ensures Live(Now()) == (old(Live(Now())) - {q + HEAD})[core + HEAD := BlockAt(Now(), core + HEAD)]
    {
      ghost var h := Now();
      ghost var h' := MoveBigSound(h, q, core, n, content);
      Splice(q, core);
      over := (over - {q + HEAD})[core + HEAD := Used(BIG)];
      data := data[core + HEAD := content];
      ring, asked := h'.ring, h'.asked;
      assert Now() == h';
    }

    /** The links of big block `q` have been taken along to `core`; put it where `q` was. */
    method Splice(q: int, core: int)
      requires q in next && q in prev && prev[q] in next && next[prev[q]] == q && prev[q] != core
      modifies this`next, this`prev
      ensures core == q ==> next == old(next) && prev == old(prev)
      ensures core != q ==> next == old(next)[core := old(next)[q]][old(prev)[q] := core]
      ensures core != q ==> prev == old(prev)[core := old(prev)[q]][old(next)[q] := core]
    {
      var before, after := prev[q], next[q];
      if core != q {
        next := next[core := after];
        prev := prev[core := before];
      }
      if next[before] != core {
        next := next[before := core];
        prev := prev[after := core];
      }
    }

    /** A small block is replaced by one of another bucket, and its bytes are copied. */
    method Move(r: int, n: nat, core: int) returns (r': int)
      requires Valid() && n <= UINT_MAX && (core != NULL ==> Unused(Now(), core, Wanted(n), NULL))
      requires var p := r - OVERHEAD; p in over && over[p].Used? && over[p].index != BIG && r != NULL
      modifies this
      ensures Valid()
      ensures r' == NULL ==> (core == NULL || n > UINT_MAX - OVERHEAD - HEAD) && Live(Now()) == old(Live(Now()))
      ensures r' != NULL ==> Serves(r' - OVERHEAD, n) && r' - OVERHEAD !in old(Live(Now()))
      ensures r' != NULL ==> Live(Now()) == (old(Live(Now())) - {r - OVERHEAD})[r' - OVERHEAD := BlockAt(Now(), r' - OVERHEAD)]
      ensures r' != NULL ==> var was := old(BlockAt(Now(), r - OVERHEAD)); SamePrefix(was.data, data[r' - OVERHEAD], Shorter(was.asked, n))
    {
      ghost var live := Live(Now());
      var p := r - OVERHEAD;
      UsedBlock(Now(), p);
      ghost var was := BlockAt(Now(), p);
      assert live[p] == was;
      var maxSize := Size(over[r - OVERHEAD].index);
      r' := Alloc(n, core);
      if r' == NULL {
        return;
      }
      assert Live(Now())[p] == was;
      StillServes(p, was.asked);
      MoveTo(r, r', n, maxSize);
    }

    /** The bytes of a small block go to another one, and it is released. */
    method MoveTo(r: int, r': int, n: nat, maxSize: nat)
      requires Valid() && r != NULL && r != r' && r - OVERHEAD in Live(Now()) && r' - OVERHEAD in Live(Now())
      requires Serves(r' - OVERHEAD, n) && r - OVERHEAD in data && |data[r - OVERHEAD]| == maxSize - OVERHEAD
      modifies this
      ensures Valid() && Serves(r' - OVERHEAD, n)
      ensures Live(Now()) == (old(Live(Now())) - {r - OVERHEAD})[r' - OVERHEAD := BlockAt(Now(), r' - OVERHEAD)]
      ensures var was := old(BlockAt(Now(), r - OVERHEAD)); SamePrefix(was.data, data[r' - OVERHEAD], Shorter(was.asked, n))
    {
      var p := r - OVERHEAD;
      UsedBlock(Now(), p);
      var room := maxSize - OVERHEAD;
      var numBytes := if room < n then room else n;
      Replace(r, r' - OVERHEAD, numBytes);
      StillServes(r' - OVERHEAD, n);
    }

    /** The new block `q` gets the first bytes of the old one, which is released. */
    method Replace(r: int, q: int, numBytes: nat)
      requires Valid() && r != NULL && r - OVERHEAD in Live(Now()) && q in Live(Now()) && r - OVERHEAD != q
      requires r - OVERHEAD in data && q in data && numBytes <= |data[r - OVERHEAD]| && numBytes <= |data[q]|
      modifies this
      ensures Valid() && q in Live(Now()) && Live(Now()) == (old(Live(Now())) - {r - OVERHEAD})[q := BlockAt(Now(), q)]
      ensures Live(Now())[q].asked == old(Live(Now()))[q].asked
      ensures q in data && SamePrefix(old(data)[r - OVERHEAD], data[q], numBytes)
    {
      ghost var live := Live(Now());
      Copy(q, r - OVERHEAD, numBytes);
      ghost var copied := BlockAt(Now(), q);
      Free(r);
      assert Live(Now())[q] == copied;
      StillServes(q, copied.asked);
    }

    lemma StillServes(q: int, n: nat)
      requires Valid() && q in Live(Now()) && Live(Now())[q].asked == n
      ensures Serves(q, n) && Live(Now())[q] == BlockAt(Now(), q)
    {
      UsedBlock(Now(), q);
    }

    /** Copy the first bytes of a block to another. */
    method Copy(q: int, p: int, numBytes: nat)
      requires Valid() && p in Live(Now()) && q in Live(Now()) && p != q
      requires p in data && q in data && numBytes <= |data[p]| && numBytes <= |data[q]|
      modifies this`data
      ensures Valid() && Live(Now()) == old(Live(Now()))[q := BlockAt(Now(), q)]
      ensures q in data && q in Live(Now()) && Live(Now())[q].asked == old(Live(Now()))[q].asked
      ensures |data[q]| == |old(data)[q]| && SamePrefix(old(data)[p], data[q], numBytes)
    {
      ghost var h := Now();
      var d := data[p][..numBytes] + data[q][numBytes..];
      WriteSound(h, q, d);
      data := data[q := d];
      assert Now() == h.(data := h.data[q := d]);
    }

    /** TclpRealloc: block `r` is given another size, in place or elsewhere; the bytes that both
        sizes have are kept. `content` is what the system leaves in a big block. */
    method Realloc(r: int, n: nat, core: int, content: seq<int>) returns (r': int)
      requires Valid() && n <= UINT_MAX && (r != NULL ==> r - OVERHEAD in over)
      requires var p := r - OVERHEAD;
               if r != NULL && over[p] == Used(BIG) then
                 core != NULL ==> && Unused(Now(), core, BigSize(n), p - HEAD)
                                  && p in asked && p in data && |content| == n && SamePrefix(data[p], content, Shorter(asked[p], n))
               else core != NULL ==> Unused(Now(), core, Wanted(n), NULL)
      modifies this
      ensures Valid()
      ensures r' == NULL ==> Live(Now()) == old(Live(Now()))
      ensures r' != NULL ==> Serves(r' - OVERHEAD, n) && (r' == r || r' - OVERHEAD !in old(Live(Now())))
      ensures r' != NULL ==> Live(Now()) == (old(Live(Now())) - {r - OVERHEAD})[r' - OVERHEAD := BlockAt(Now(), r' - OVERHEAD)]
      ensures r' != NULL && r != NULL ==>
        var was := old(BlockAt(Now(), r - OVERHEAD)); SamePrefix(was.data, data[r' - OVERHEAD], Shorter(was.asked, n))
      ensures r' == NULL ==> core == NULL || (r != NULL && old(over)[r - OVERHEAD].Next?) || n > UINT_MAX - OVERHEAD - HEAD
      ensures r != NULL && old(over)[r - OVERHEAD].Next? ==> r' == NULL
      ensures r != NULL && old(over)[r - OVERHEAD].Used? && old(over)[r - OVERHEAD].index != BIG ==>
        var i := old(over)[r - OVERHEAD].index; (r' == r <==> n + OVERHEAD <= Size(i) && (i == 0 || Size(i) / 2 <= n + OVERHEAD))
    {
      var p := r - OVERHEAD;
      if r == NULL {
        NoBlockAtNull();
        r' := Alloc(n, core);
        return;
      }
      if over[p].Next? {
        return NULL;
      }
      UsedBlock(Now(), p);
      assert Live(Now())[p] == BlockAt(Now(), p);
      var i := over[p].index;
      if i == BIG {
        r' := ReallocBig(p - HEAD, n, core, content);
      } else if Cheap(n, i) {
        CheapFits(n, i);
        ResizeSound(Now(), p, n);
        asked := asked[p := n];
        r' := r;
      } else {
        r' := Move(r, n, core);
      }
    }
  }
}

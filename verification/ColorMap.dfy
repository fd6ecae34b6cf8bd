/** The colour map: a two-level table of characters with shared blocks, and the colour
    descriptors with their free chain. */
module ColorMap {
  import opened Automaton
  import opened NfaModel
  import opened ColorFacts
  import opened ColorSession

  // ----- the free chain

  ghost predicate ChainEntry(cd: seq<Desc>, chain: seq<int>, i: int)
    requires 0 <= i < |chain|
  {
    && 0 < chain[i] < |cd| && cd[chain[i]].unused
    && cd[chain[i]].sub == if i + 1 < |chain| then chain[i + 1] else 0
  }

  /** Free entries chained from `free`, each once. */
  ghost predicate Linked(cd: seq<Desc>, free: int, chain: seq<int>) {
    && free == (if chain == [] then 0 else chain[0])
    && (forall i :: 0 <= i < |chain| ==> ChainEntry(cd, chain, i))
    && (forall i, j :: 0 <= i < j < |chain| ==> chain[i] != chain[j])
  }

  /** The free entries at or below `max`, which itself is in use, are those on the chain. */
  ghost predicate FreeChain(cd: seq<Desc>, max: nat, free: int, chain: seq<int>) {
    && max < |cd| && !cd[max].unused && !cd[WHITE].unused && Linked(cd, free, chain)
    && (forall i :: 0 <= i < |chain| ==> chain[i] < max)
    && (forall k :: 0 <= k <= max && cd[k].unused ==> k in chain)
  }

  /** Dropping the first entry. */
  lemma LinkedTail(cd: seq<Desc>, free: int, chain: seq<int>)
    requires Linked(cd, free, chain) && chain != []
    ensures 0 < free < |cd| && Linked(cd, cd[free].sub, chain[1..])
  {
    assert ChainEntry(cd, chain, 0);
    forall i | 0 <= i < |chain| - 1 ensures ChainEntry(cd, chain[1..], i) { assert ChainEntry(cd, chain, i + 1); }
  }

  /** Dropping the entry after the `i`th. */
  lemma LinkedSkip(cd: seq<Desc>, free: int, chain: seq<int>, i: nat)
    requires Linked(cd, free, chain) && i + 1 < |chain|
    ensures var pco, nco := chain[i], chain[i + 1];
            && 0 < pco < |cd| && 0 < nco < |cd|
            && Linked(cd[pco := cd[pco].(sub := cd[nco].sub)], free, chain[..i + 1] + chain[i + 2..])
  {
    assert ChainEntry(cd, chain, i) && ChainEntry(cd, chain, i + 1);
    var pco, nco := chain[i], chain[i + 1];
    var cd', rest := cd[pco := cd[pco].(sub := cd[nco].sub)], chain[..i + 1] + chain[i + 2..];
    forall k | 0 <= k < |rest| ensures ChainEntry(cd', rest, k) {
      assert ChainEntry(cd, chain, if k <= i then k else k + 1);
    }
  }

  /** Only what the entries on the chain say matters. */
  lemma LinkedSame(cd: seq<Desc>, cd': seq<Desc>, free: int, chain: seq<int>)
    requires Linked(cd, free, chain) && |cd| <= |cd'|
    requires forall k :: k in chain && 0 <= k < |cd| ==> cd'[k].unused == cd[k].unused && cd'[k].sub == cd[k].sub
    ensures Linked(cd', free, chain)
  {
    forall i | 0 <= i < |chain| ensures ChainEntry(cd', chain, i) { assert ChainEntry(cd, chain, i); }
  }

  lemma LinkedFront(cd: seq<Desc>, free: int, chain: seq<int>, co: nat)
    requires Linked(cd, free, chain) && 0 < co < |cd| && co !in chain && cd[co].unused && cd[co].sub == free
    ensures Linked(cd, co, [co] + chain)
  {
    forall i | 0 <= i < |chain| + 1 ensures ChainEntry(cd, [co] + chain, i) {
      if i > 0 { assert ChainEntry(cd, chain, i - 1); }
    }
  }

  lemma ChainKept(cd: seq<Desc>, cd': seq<Desc>, max: nat, free: int, chain: seq<int>)
    requires FreeChain(cd, max, free, chain) && |cd'| == |cd|
    requires forall k :: 0 <= k < |cd| ==> cd'[k].unused == cd[k].unused && (cd[k].unused ==> cd'[k].sub == cd[k].sub)
    ensures FreeChain(cd', max, free, chain)
  {
    forall i | 0 <= i < |chain| ensures ChainEntry(cd', chain, i) { assert ChainEntry(cd, chain, i); }
  }

  const NEWDESC := Desc(0, NOSUB, false, false, null)

  /** `co` is taken into use. */
  ghost predicate Taken(cd: seq<Desc>, max: nat, cd': seq<Desc>, max': nat, co: nat) {
    && max < |cd| <= |cd'| && max' < |cd'| && max <= max' <= max + 1 && (max < max' ==> co == max')
    && co <= max' && cd'[co] == NEWDESC && !Used(cd, max, co)
    && (forall k :: 0 <= k <= max && k != co ==> cd'[k].unused == cd[k].unused && (!cd[k].unused ==> cd'[k] == cd[k]))
  }

  /** The colours of characters stay in use, with their solid blocks; new colours have none. */
  ghost predicate SameBlocks(flat: seq<int>, cd: seq<Desc>, max: nat, cd': seq<Desc>, max': nat) {
    && max' < |cd'| && Used(cd', max', WHITE)
    && (forall c :: 0 <= c < |flat| ==> Used(cd', max', flat[c]))
    && (forall k :: Used(cd', max', k) ==> cd'[k].block == if Used(cd, max, k) then cd[k].block else null)
  }

  class ColorMap {
    /** The upper level of the table, and the block that is white throughout. */
    const top: array<array<int>>
    const fill: array<int>
    /** The descriptors; `max` is the highest in use. */
    var cd: seq<Desc>
    var max: nat
    /** The beginning of the free chain, if not 0. */
    var free: int
    /** What the table maps characters to, the blocks in use, and the free chain. */
    ghost var flat: seq<int>
    ghost var blocks: set<array<int>>
    ghost var chain: seq<int>

    /** The block of solid colour `k` is of that colour throughout. */
    ghost predicate Solid(k: int)
      reads this, blocks
    {
      Used(cd, max, k) && cd[k].block != null ==>
        cd[k].block in blocks && cd[k].block.Length == BYTTAB && forall i :: 0 <= i < BYTTAB ==> cd[k].block[i] == k
    }

    /** The table has no other use of block `b`. */
    ghost predicate Private(b: int)
      reads this, top
      requires top.Length == BYTTAB && 0 <= b < BYTTAB
    {
      && (forall d :: 0 <= d < BYTTAB && d != b ==> top[d] != top[b])
      && (forall k :: Used(cd, max, k) ==> cd[k].block != top[b])
    }

    /** Block `b` is some colour's solid block. */
    ghost predicate Shared(b: int)
      reads this, top, blocks
      requires top.Length == BYTTAB && 0 <= b < BYTTAB && top[b] in blocks && top[b].Length == BYTTAB
    {
      Used(cd, max, top[b][0]) && cd[top[b][0]].block == top[b]
    }

    /** The table is well formed and maps characters as `flat` says. */
    ghost predicate Tree()
      reads this, top, blocks
    {
      && top.Length == BYTTAB && fill in blocks && |flat| == CHRS
      && (forall t :: t in blocks ==> t.Length == BYTTAB)
      && (forall b :: 0 <= b < BYTTAB ==> top[b] in blocks)
      && (forall b, i :: 0 <= b < BYTTAB && 0 <= i < BYTTAB ==> top[b][i] == flat[BYTTAB * b + i])
      && max < |cd| && Used(cd, max, WHITE) && cd[WHITE].block == fill
      && (forall k :: Solid(k))
      && (forall b :: 0 <= b < BYTTAB ==> Shared(b) || Private(b))
      && (forall c :: 0 <= c < CHRS ==> Used(cd, max, flat[c]))
    }

    /** A new map, all white. */
    constructor ()
      ensures Tree() && FreeChain(cd, max, free, chain) && fresh(top) && fresh(blocks)
      ensures Tallied(flat, cd, max) && NoneOpen(cd, max) && forall c :: 0 <= c < CHRS ==> flat[c] == WHITE
    {
      var f := new int[BYTTAB](_ => WHITE);
      fill := f;
      top := new array<int>[BYTTAB](_ => f);
      cd, max, free := [Desc(CHRS, NOSUB, false, false, f)] + seq(9, _ => NEWDESC), 0, 0;
      flat, blocks, chain := seq(CHRS, _ => WHITE), {f}, [];
      new;
      IntervalSize(0, CHRS);
      assert CharsOf(flat, WHITE) == Interval(0, CHRS);
      forall k | true ensures GoodColor(flat, cd, max, k) {
      }
    }

    /** GETCOLOR */
    method GetColor(c: int) returns (co: int)
      requires Tree() && 0 <= c < CHRS
      ensures co == flat[c]
    {
      co := top[c / BYTTAB][c % BYTTAB];
    }

    /** Give the table its own copy of block `b` if that is a shared one. */
    method MakePrivate(b: int)
      requires Tree() && 0 <= b < BYTTAB
      modifies top, this`blocks
      ensures Tree() && Private(b) && fresh(blocks - old(blocks)) && old(blocks) <= blocks
      ensures forall d :: 0 <= d < BYTTAB && d != b ==> top[d] == old(top[d])
    {
      var t := top[b];
      assert top[b][0] == flat[BYTTAB * b + 0];
      var cb := cd[t[0]].block;
      if t == fill || t == cb {
        var newt := new int[BYTTAB](i requires 0 <= i < BYTTAB && t.Length == BYTTAB reads t => t[i]);
        blocks := blocks + {newt};
        top[b] := newt;
        forall k | true ensures Solid(k) {
          assert old(Solid(k));
        }
        forall d | 0 <= d < BYTTAB ensures Shared(d) || Private(d) {
          assert d != b ==> old(Shared(d)) || old(Private(d));
          assert d != b ==> top[d][0] == old(top[d][0]);
        }
      } else {
        assert !Shared(b);
      }
    }

    /** Write to a block that is the table's own. */
    method Poke(b: int, i: int, co: int)
      requires Tree() && 0 <= b < BYTTAB && 0 <= i < BYTTAB && Private(b) && Used(cd, max, co)
      modifies top[b], this`flat
      ensures Tree() && Private(b) && flat == old(flat)[BYTTAB * b + i := co]
    {
      var t := top[b];
      t[i] := co;
      flat := flat[BYTTAB * b + i := co];
      forall k | true ensures Solid(k) {
        assert old(Solid(k));
      }
      forall d | 0 <= d < BYTTAB ensures Shared(d) || Private(d) {
        assert old(Shared(d)) || old(Private(d));
        assert d != b ==> top[d][0] == old(top[d][0]);
      }
    }

    /** Set the colour of a character. */
    method SetColor(c: int, co: int) returns (prev: int)
      requires Tree() && 0 <= c < CHRS && Used(cd, max, co)
      modifies top, this`blocks, this`flat, blocks
      ensures Tree() && fresh(blocks - old(blocks))
      ensures prev == old(flat)[c] && flat == old(flat)[c := co]
    {
      var b, i := c / BYTTAB, c % BYTTAB;
      MakePrivate(b);
      prev := top[b][i];
      Poke(b, i, co);
    }

    /** Find a new colour. */
    method NewColor() returns (co: nat)
      requires FreeChain(cd, max, free, chain)
      modifies this`cd, this`max, this`free, this`chain
      ensures FreeChain(cd, max, free, chain) && Taken(old(cd), old(max), cd, max, co) && co != WHITE
    {
      if free != 0 {
        assert ChainEntry(cd, chain, 0);
        LinkedTail(cd, free, chain);
        co := free;
        free := cd[co].sub;
        LinkedSame(cd, cd[co := NEWDESC], free, chain[1..]);
        chain := chain[1..];
      } else {
        if max >= |cd| - 1 {
          LinkedSame(cd, cd + seq(|cd|, _ => NEWDESC), free, chain);
          cd := cd + seq(|cd|, _ => NEWDESC);
        }
        max := max + 1;
        co := max;
        LinkedSame(cd, cd[co := NEWDESC], free, chain);
      }
      cd := cd[co := NEWDESC];
    }

    /** Take the entries above `max` off the free chain. */
    method TrimChain()
      requires Linked(cd, free, chain) && max < |cd|
      modifies this`cd, this`free, this`chain
      ensures Linked(cd, free, chain) && |cd| == |old(cd)|
      ensures forall i :: 0 <= i < |chain| ==> chain[i] <= max
      ensures forall k :: k in old(chain) && k <= max ==> k in chain
      ensures forall k :: 0 <= k < |cd| ==> cd[k].unused == old(cd)[k].unused && (!cd[k].unused ==> cd[k] == old(cd)[k])
    {
      while free > max
        invariant Linked(cd, free, chain) && cd == old(cd) && forall k :: k in old(chain) && k <= max ==> k in chain
        decreases |chain|
      {
        assert ChainEntry(cd, chain, 0);
        LinkedTail(cd, free, chain);
        free := cd[free].sub;
        chain := chain[1..];
      }
      assert chain != [] ==> ChainEntry(cd, chain, 0);
      if free > 0 {
        TrimRest();
      }
    }

    /** The same, once the first entry is one to keep. */
    method TrimRest()
      requires Linked(cd, free, chain) && max < |cd| && 0 < free <= max
      modifies this`cd, this`chain
      ensures Linked(cd, free, chain) && |cd| == |old(cd)|
      ensures forall i :: 0 <= i < |chain| ==> chain[i] <= max
      ensures forall k :: k in old(chain) && k <= max ==> k in chain
      ensures forall k :: 0 <= k < |cd| ==> cd[k].unused == old(cd)[k].unused && (!cd[k].unused ==> cd[k] == old(cd)[k])
    {
      assert ChainEntry(cd, chain, 0);
      var pco := free;
      var nco := cd[pco].sub;
      ghost var i := 0;
      while nco > 0
        invariant Linked(cd, free, chain) && |cd| == |old(cd)| && 0 <= i < |chain| && pco == chain[i]
        invariant nco == if i + 1 < |chain| then chain[i + 1] else 0
        invariant forall j :: 0 <= j <= i ==> chain[j] <= max
        invariant forall k :: k in old(chain) && k <= max ==> k in chain
        invariant forall k :: 0 <= k < |cd| ==> cd[k].unused == old(cd)[k].unused && (!cd[k].unused ==> cd[k] == old(cd)[k])
        decreases |chain| - i
      {
        assert ChainEntry(cd, chain, i) && (i + 1 < |chain| ==> ChainEntry(cd, chain, i + 1));
        if nco > max {
          LinkedSkip(cd, free, chain, i);
          ghost var was := chain;
          nco := cd[nco].sub;
          cd := cd[pco := cd[pco].(sub := nco)];
          chain := chain[..i + 1] + chain[i + 2..];
          forall k | k in was && k <= max ensures k in chain {
            var j :| 0 <= j < |was| && was[j] == k;
            assert chain[if j <= i then j else j - 1] == k;
          }
        } else {
          pco := nco;
          nco := cd[pco].sub;
          i := i + 1;
        }
      }
      assert i + 1 < |chain| ==> ChainEntry(cd, chain, i + 1);
    }

    /** Free a colour that has no arcs, no subcolour and no characters. White stays. */
    method FreeColor(co: nat)
      requires FreeChain(cd, max, free, chain) && Used(cd, max, co)
      modifies this`cd, this`max, this`free, this`chain
      ensures FreeChain(cd, max, free, chain)
      ensures if co == WHITE then cd == old(cd) && max == old(max) else Freed(old(cd), old(max), cd, max, co)
      ensures |cd| == |old(cd)| && forall k :: 0 <= k < |cd| && (old(cd)[k].unused || max < k <= old(max)) ==> cd[k].unused
    {
      if co == WHITE {
        return;
      }
      ghost var was := cd;
      forall i | 0 <= i < |chain| ensures chain[i] != co { assert ChainEntry(cd, chain, i); }
      LinkedSame(cd, cd[co := cd[co].(unused := true, pseudo := false, block := null)], free, chain);
      cd := cd[co := cd[co].(unused := true, pseudo := false, block := null)];
      if co == max {
        ghost var marked := cd;
        while max > WHITE && cd[max].unused
          invariant cd == marked && free == old(free) && chain == old(chain)
          invariant 0 <= max <= co && forall k :: max < k <= co ==> cd[k].unused
        {
          max := max - 1;
        }
        TrimChain();
        assert !cd[max].unused && !cd[WHITE].unused;
        forall k | k != co && Used(was, co, k) ensures k <= max && cd[k] == was[k] { assert marked[k] == was[k]; }
        forall i | 0 <= i < |chain| ensures chain[i] < max { assert ChainEntry(cd, chain, i); }
      } else {
        LinkedSame(cd, cd[co := cd[co].(sub := free)], free, chain);
        cd := cd[co := cd[co].(sub := free)];
        LinkedFront(cd, free, chain, co);
        chain := [co] + chain;
        free := co;
      }
    }

    /** The same blocks are shared or the table's own as before. */
    twostate predicate UsesKept()
      requires old(Tree()) && Tree()
      reads this, top, blocks
    {
      forall b :: 0 <= b < BYTTAB ==> (old(Shared(b)) ==> Shared(b)) && (old(Private(b)) ==> Private(b))
    }

    /** The table does not care about the other parts of descriptors. */
    twostate lemma TreeKept()
      requires old(Tree()) && unchanged(top) && flat == old(flat) && blocks == old(blocks) && forall t :: t in blocks ==> unchanged(t)
      requires SameBlocks(flat, old(cd), old(max), cd, max)
      ensures Tree() && UsesKept()
    {
      forall k | true ensures Solid(k) { assert old(Solid(k)); }
      forall d | 0 <= d < BYTTAB ensures Shared(d) || Private(d) { assert old(Shared(d)) || old(Private(d)); }
    }

    /** Allocate a false colour, to be managed by other means. */
    method PseudoColor() returns (co: nat)
      requires Tree() && FreeChain(cd, max, free, chain) && Tallied(flat, cd, max)
      modifies this`cd, this`max, this`free, this`chain
      ensures Tree() && FreeChain(cd, max, free, chain) && Tallied(flat, cd, max)
      ensures Pseudo(old(cd), old(max), cd, max, co) && (old(NoneOpen(cd, max)) ==> NoneOpen(cd, max))
    {
      co := NewColor();
      ghost var taken := cd;
      cd := cd[co := cd[co].(nchrs := 1, pseudo := true)];
      PseudoKeepsTally(flat, old(cd), old(max), cd, max, co);
      TreeKept();
      ChainKept(taken, cd, max, free, chain);
    }

    /** Open a new subcolour of `co`. */
    method OpenSub(co: nat) returns (sco: nat)
      requires Tree() && FreeChain(cd, max, free, chain) && Used(cd, max, co)
      modifies this`cd, this`max, this`free, this`chain
      ensures Tree() && UsesKept() && FreeChain(cd, max, free, chain) && Opened(old(cd), old(max), cd, max, co, sco)
    {
      sco := NewColor();
      ghost var taken := cd;
      cd := cd[co := cd[co].(sub := sco)];
      cd := cd[sco := cd[sco].(sub := sco)];
      TreeKept();
      ChainKept(taken, cd, max, free, chain);
    }

    /** Allocate a new subcolour to `co`, if necessary: not if it has an open one, and not
        if it has only one character left. */
    method NewSub(co: nat, ghost arcs: set<Arc>, ghost K: Start, ghost L: set<int>, ghost lp: nat, ghost rp: nat) returns (sco: nat)
      requires Tree() && FreeChain(cd, max, free, chain) && Session(flat, cd, max, arcs, K, L, lp, rp) && Real(cd, max, co)
      modifies this`cd, this`max, this`free, this`chain
      ensures Tree() && UsesKept() && FreeChain(cd, max, free, chain) && Session(flat, cd, max, arcs, K, L, lp, rp) && Real(cd, max, co)
      ensures cd[co].nchrs == old(cd[co].nchrs) && cd[co].block == old(cd[co].block)
      ensures sco == co ==> Open(cd, max, co) || (cd[co].sub == NOSUB && cd[co].nchrs == 1)
      ensures old(cd[co].sub) != NOSUB ==> sco == old(cd[co].sub) && cd == old(cd)
      ensures old(cd[co].sub) == NOSUB ==> if old(cd[co].nchrs) == 1 then sco == co && cd == old(cd) else sco < |cd| && sco != co && cd[co].sub == sco == cd[sco].sub
      ensures sco != co ==> IsParent(cd, max, co, sco) && Real(cd, max, sco)
    {
      assert GoodColor(flat, cd, max, co);
      if cd[co].sub != NOSUB {
        return cd[co].sub;
      }
      if cd[co].nchrs == 1 {
        return co;
      }
      sco := OpenSub(co);
      SessionOpen(flat, old(cd), old(max), cd, max, co, sco, arcs, K, L, lp, rp);
      OpenedEntry(old(cd), old(max), cd, max, co, sco, co);
    }

    /** The map is in order, and a run of subcolouring is under way. */
    ghost predicate Ongoing(arcs: set<Arc>, K: Start, L: set<int>, lp: nat, rp: nat)
      reads this, top, blocks
    {
      Tree() && FreeChain(cd, max, free, chain) && Session(flat, cd, max, arcs, K, L, lp, rp)
    }

    /** Count characters from one colour to another. */
    method Recount(co: nat, sco: nat, n: int)
      requires Tree() && FreeChain(cd, max, free, chain) && Used(cd, max, co) && Used(cd, max, sco)
      modifies this`cd
      ensures Tree() && UsesKept() && FreeChain(cd, max, free, chain) && cd == Recounted(old(cd), co, sco, n)
    {
      cd := cd[co := cd[co].(nchrs := cd[co].nchrs - n)];
      cd := cd[sco := cd[sco].(nchrs := cd[sco].nchrs + n)];
      TreeKept();
      ChainKept(old(cd), cd, max, free, chain);
    }

    /** Put `c` in a subcolour, if necessary a new one; with an arc of that colour from
        `lp` to `rp`, `c` has been listed. */
    method SubColor(c: int, ghost arcs: set<Arc>, ghost K: Start, ghost L: set<int>, ghost lp: nat, ghost rp: nat) returns (sco: nat)
      requires Ongoing(arcs, K, L, lp, rp) && 0 <= c < CHRS
      modifies this`cd, this`max, this`free, this`chain, this`flat, this`blocks, top, blocks
      ensures Ongoing(arcs + {Arc(Plain, sco, lp, rp)}, K, L + {c}, lp, rp) && fresh(blocks - old(blocks)) && Used(cd, max, sco)
    {
      var co := GetColor(c);
      sco := NewSub(co, arcs, K, L, lp, rp);
      ghost var was, cd1 := flat, cd;
      SessionTake(was, was[c := sco], cd1, max, {c}, co, sco, arcs, K, L, lp, rp);
      if co == sco {
        assert was[c := sco] == was && Recounted(cd1, co, sco, 1) == cd1;
        return;
      }
      Recount(co, sco, 1);
      var prev := SetColor(c, sco);
    }

    /** The block of solid colour `sco`, set up if there is none yet. */
    method SolidBlock(sco: nat) returns (t: array<int>)
      requires Tree() && FreeChain(cd, max, free, chain) && Used(cd, max, sco)
      modifies this`cd, this`blocks
      ensures Tree() && UsesKept() && FreeChain(cd, max, free, chain) && fresh(blocks - old(blocks)) && old(blocks) <= blocks
      ensures old(cd[sco].block) != null ==> t == old(cd[sco].block)
      ensures cd == old(cd)[sco := old(cd)[sco].(block := t)] && t in blocks
    {
      assert Solid(sco);
      if cd[sco].block != null {
        return cd[sco].block;
      }
      t := new int[BYTTAB](_ => sco);
      cd := cd[sco := cd[sco].(block := t)];
      blocks := blocks + {t};
      forall k | true ensures Solid(k) { assert k != sco ==> old(Solid(k)); }
      forall d | 0 <= d < BYTTAB ensures Shared(d) || Private(d) { assert old(Shared(d)) || old(Private(d)); }
      ChainKept(old(cd), cd, max, free, chain);
    }

    /** Hang the solid block of `sco` where there is some other solid block. */
    method HangBlock(b: int, sco: nat)
      requires Tree() && 0 <= b < BYTTAB && Shared(b) && Used(cd, max, sco) && cd[sco].block != null
      modifies top, this`flat
      ensures Tree() && flat == BlockSet(old(flat), b, sco)
    {
      assert Solid(sco);
      top[b] := cd[sco].block;
      flat := BlockSet(flat, b, sco);
      forall d, i | 0 <= d < BYTTAB && 0 <= i < BYTTAB ensures top[d][i] == flat[BYTTAB * d + i] {
        assert d != b ==> top[d][i] == old(flat)[BYTTAB * d + i];
      }
      forall k | true ensures Solid(k) { assert old(Solid(k)); }
      forall d | 0 <= d < BYTTAB ensures Shared(d) || Private(d) { assert old(Shared(d)) || old(Private(d)); }
    }

    /** A run of one colour in a block that is the table's own, moved to the subcolour. */
    method RecolorRun(b: int, i: int, co: int, sco: nat) returns (j: int)
      requires Tree() && 0 <= b < BYTTAB && 0 <= i < BYTTAB && Private(b) && Used(cd, max, sco) && top[b][i] == co
      modifies top[b], this`flat
      ensures Tree() && Private(b) && i < j <= BYTTAB
      ensures CharsMoved(old(flat), flat, Interval(BYTTAB * b + i, BYTTAB * b + j), co, sco)
    {
      var t := top[b];
      ghost var was, lo := flat, BYTTAB * b + i;
      j := i;
      while j < BYTTAB && t[j] == co
        invariant Tree() && Private(b) && top[b] == t && i <= j <= BYTTAB
        invariant CharsMoved(was, flat, Interval(lo, BYTTAB * b + j), co, sco)
        invariant j == i ==> t[j] == co
      {
        RunOn(was, flat, lo, BYTTAB * b + j, co, sco);
        Poke(b, j, sco);
        j := j + 1;
      }
    }
  }

  /** `co` is taken into use as a pseudocolour, which no character has. */
  ghost predicate Pseudo(cd: seq<Desc>, max: nat, cd': seq<Desc>, max': nat, co: nat) {
    && max < |cd| <= |cd'| && max' < |cd'| && max <= max' <= max + 1 && (max < max' ==> co == max')
    && co <= max' && cd'[co] == Desc(1, NOSUB, false, true, null) && !Used(cd, max, co)
    && (forall k :: 0 <= k <= max && k != co ==> cd'[k].unused == cd[k].unused && (!cd[k].unused ==> cd'[k] == cd[k]))
  }

  lemma PseudoKeepsTally(flat: seq<int>, cd: seq<Desc>, max: nat, cd': seq<Desc>, max': nat, co: nat)
    requires Tallied(flat, cd, max) && Pseudo(cd, max, cd', max', co)
    ensures Tallied(flat, cd', max') && (NoneOpen(cd, max) ==> NoneOpen(cd', max'))
    ensures SameBlocks(flat, cd, max, cd', max')
  {
    forall k | true ensures Used(cd', max', k) <==> Used(cd, max, k) || k == co {
    }
    forall k | Used(cd, max, k) ensures cd'[k] == cd[k] {
    }
    assert CharsOf(flat, co) == {};
    forall k | true ensures GoodColor(flat, cd', max', k) { assert GoodColor(flat, cd, max, k); }
    forall p, s | true ensures IsParent(cd', max', p, s) <==> IsParent(cd, max, p, s) { assert GoodColor(flat, cd, max, p); }
    forall s | true ensures Parented(cd', max', s) { assert Parented(cd, max, s); }
    forall s, p, q | true ensures OneParent(cd', max', s, p, q) { assert OneParent(cd, max, s, p, q); }
  }

  /** One block's characters all of colour `k`. */
  function BlockSet(flat: seq<int>, b: int, k: int): (r: seq<int>)
    requires |flat| == CHRS && 0 <= b < BYTTAB
    ensures |r| == CHRS && forall c :: 0 <= c < CHRS ==> r[c] == if BYTTAB * b <= c < BYTTAB * b + BYTTAB then k else flat[c]
  {
    flat[..BYTTAB * b] + seq(BYTTAB, _ => k) + flat[BYTTAB * b + BYTTAB..]
  }
}

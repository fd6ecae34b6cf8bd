/** Subcolouring with arcs: ranges and blocks of characters, promotion of the subcolours,
    and the arcs of all colours or of a complement. */
module ColorArcs {
  import opened Automaton
  import opened NfaModel
  import opened ColorFacts
  import opened ColorSession
  import opened ColorMap

  /** A run of subcolouring for arcs from `lp` to `rp`. */
  ghost predicate Running(cm: ColorMap, nfa: Nfa, K: Start, L: set<int>, lp: nat, rp: nat)
    reads cm, cm.top, cm.blocks, nfa
  {
    cm.Ongoing(nfa.arcs, K, L, lp, rp) && nfa.Valid() && lp in nfa.states && rp in nfa.states
  }

  /** List one character. */
  method SubArc(cm: ColorMap, nfa: Nfa, c: int, lp: nat, rp: nat, ghost K: Start, ghost L: set<int>)
    requires Running(cm, nfa, K, L, lp, rp) && 0 <= c < CHRS
    modifies cm`cd, cm`max, cm`free, cm`chain, cm`flat, cm`blocks, cm.top, cm.blocks, nfa`arcs
    ensures Running(cm, nfa, K, L + {c}, lp, rp) && (forall t :: t in cm.blocks && t !in old(cm.blocks) ==> fresh(t))
  {
    var sco := cm.SubColor(c, nfa.arcs, K, L, lp, rp);
    nfa.NewArc(Plain, sco, lp, rp);
  }

  /** The characters of block `b`. */
  function BlockChars(b: int): set<int> { Interval(BYTTAB * b, BYTTAB * b + BYTTAB) }

  lemma BlockMoved(flat: seq<int>, b: int, co: int, sco: int)
    requires |flat| == CHRS && 0 <= b < BYTTAB && BlockChars(b) <= CharsOf(flat, co)
    ensures CharsMoved(flat, BlockSet(flat, b, sco), BlockChars(b), co, sco)
  {
    forall c | 0 <= c < CHRS ensures BlockSet(flat, b, sco)[c] == if c in BlockChars(b) then sco else flat[c] {
    }
    assert forall c :: c in BlockChars(b) ==> flat[c] == co;
  }

  /** Make block `b`, all of colour `co`, the subcolour's solid block. */
  method Solidify(cm: ColorMap, b: int, co: nat, sco: nat, ghost arcs: set<Arc>, ghost K: Start, ghost L: set<int>, ghost lp: nat, ghost rp: nat)
    requires cm.Ongoing(arcs, K, L, lp, rp) && 0 <= b < BYTTAB && cm.Shared(b) && co == cm.top[b][0]
    requires Real(cm.cd, cm.max, co) && Used(cm.cd, cm.max, sco) && BlockChars(b) <= CharsOf(cm.flat, co) && |BlockChars(b)| == BYTTAB
    requires if sco == co then Open(cm.cd, cm.max, co) else IsParent(cm.cd, cm.max, co, sco) && Real(cm.cd, cm.max, sco)
    modifies cm`cd, cm`flat, cm`blocks, cm.top
    ensures cm.Ongoing(arcs + {Arc(Plain, sco, lp, rp)}, K, L + BlockChars(b), lp, rp) && (forall t :: t in cm.blocks && t !in old(cm.blocks) ==> fresh(t))
  {
    ghost var C, was, cd1 := BlockChars(b), cm.flat, cm.cd;
    var t := cm.SolidBlock(sco);
    SessionBlocks(was, cd1, cm.max, cm.cd, arcs, K, L, lp, rp);
    ghost var cd2 := cm.cd;
    cm.HangBlock(b, sco);
    BlockMoved(was, b, co, sco);
    SessionTake(was, cm.flat, cd2, cm.max, C, co, sco, arcs, K, L, lp, rp);
    cm.Recount(co, sco, BYTTAB);
  }

  /** List a block of one colour, by hanging the subcolour's solid block. */
  method SubSolid(cm: ColorMap, nfa: Nfa, b: int, lp: nat, rp: nat, ghost K: Start, ghost L: set<int>)
    requires Running(cm, nfa, K, L, lp, rp) && 0 <= b < BYTTAB && cm.Shared(b)
    modifies cm`cd, cm`max, cm`free, cm`chain, cm`flat, cm`blocks, cm.top, nfa`arcs
    ensures Running(cm, nfa, K, L + BlockChars(b), lp, rp) && (forall t :: t in cm.blocks && t !in old(cm.blocks) ==> fresh(t))
  {
    var co: nat := cm.top[b][0];
    UniformBlock(cm, b);
    var sco := cm.NewSub(co, nfa.arcs, K, L, lp, rp);
    NotAlone(cm.flat, cm.cd, cm.max, co, BlockChars(b));
    Solidify(cm, b, co, sco, nfa.arcs, K, L, lp, rp);
    nfa.NewArc(Plain, sco, lp, rp);
  }

  /** A shared block is of one colour. */
  lemma UniformBlock(cm: ColorMap, b: int)
    requires cm.Tree() && 0 <= b < BYTTAB && cm.Shared(b)
    ensures BlockChars(b) <= CharsOf(cm.flat, cm.top[b][0]) && |BlockChars(b)| == BYTTAB
  {
    IntervalSize(BYTTAB * b, BYTTAB * b + BYTTAB);
    assert cm.Solid(cm.top[b][0]);
    forall c | c in BlockChars(b) ensures cm.flat[c] == cm.top[b][0] {
      assert cm.top[b][c - BYTTAB * b] == cm.flat[BYTTAB * b + (c - BYTTAB * b)];
    }
  }

  /** A colour with a whole block of characters has more than one. */
  lemma NotAlone(flat: seq<int>, cd: seq<Desc>, max: nat, co: nat, C: set<int>)
    requires Tallied(flat, cd, max) && Real(cd, max, co) && C <= CharsOf(flat, co) && |C| == BYTTAB
    ensures cd[co].nchrs >= BYTTAB
  {
    assert GoodColor(flat, cd, max, co);
    assert CharsOf(flat, co) == C + (CharsOf(flat, co) - C);
  }

  /** Move a run to its subcolour. */
  method MoveRun(cm: ColorMap, b: int, i: int, co: nat, sco: nat, ghost arcs: set<Arc>, ghost K: Start, ghost L: set<int>, ghost lp: nat, ghost rp: nat)
    returns (j: int)
    requires cm.Ongoing(arcs, K, L, lp, rp) && 0 <= b < BYTTAB && 0 <= i < BYTTAB && cm.Private(b) && cm.top[b][i] == co
    requires Real(cm.cd, cm.max, co) && Used(cm.cd, cm.max, sco)
    requires if sco == co then Open(cm.cd, cm.max, co) || (cm.cd[co].sub == NOSUB && cm.cd[co].nchrs == 1)
             else IsParent(cm.cd, cm.max, co, sco) && Real(cm.cd, cm.max, sco)
    modifies cm`cd, cm`flat, cm.top[b]
    ensures i < j <= BYTTAB && cm.Tree() && cm.Private(b)
    ensures cm.Ongoing(arcs + {Arc(Plain, sco, lp, rp)}, K, L + Interval(BYTTAB * b + i, BYTTAB * b + j), lp, rp)
  {
    ghost var was, cd1 := cm.flat, cm.cd;
    j := cm.RecolorRun(b, i, co, sco);
    ghost var C := Interval(BYTTAB * b + i, BYTTAB * b + j);
    assert BYTTAB * b + i in C;
    IntervalSize(BYTTAB * b + i, BYTTAB * b + j);
    SessionTake(was, cm.flat, cd1, cm.max, C, co, sco, arcs, K, L, lp, rp);
    cm.Recount(co, sco, j - i);
  }

  /** List one run of a mixed block. */
  method SubRun(cm: ColorMap, nfa: Nfa, b: int, i: int, lp: nat, rp: nat, ghost K: Start, ghost L: set<int>) returns (j: int)
    requires Running(cm, nfa, K, L, lp, rp) && 0 <= b < BYTTAB && 0 <= i < BYTTAB && cm.Private(b)
    modifies cm`cd, cm`max, cm`free, cm`chain, cm`flat, cm.top[b], nfa`arcs
    ensures i < j <= BYTTAB && cm.Tree() && cm.Private(b)
    ensures Running(cm, nfa, K, L + Interval(BYTTAB * b + i, BYTTAB * b + j), lp, rp)
  {
    assert cm.top[b][i] == cm.flat[BYTTAB * b + i];
    var co: nat := cm.top[b][i];
    var sco := cm.NewSub(co, nfa.arcs, K, L, lp, rp);
    j := MoveRun(cm, b, i, co, sco, nfa.arcs, K, L, lp, rp);
    nfa.NewArc(Plain, sco, lp, rp);
  }

  /** List a block of several colours, run by run. */
  method SubMixed(cm: ColorMap, nfa: Nfa, b: int, lp: nat, rp: nat, ghost K: Start, ghost L: set<int>)
    requires Running(cm, nfa, K, L, lp, rp) && 0 <= b < BYTTAB && cm.Private(b)
    modifies cm`cd, cm`max, cm`free, cm`chain, cm`flat, cm.top[b], nfa`arcs
    ensures Running(cm, nfa, K, L + BlockChars(b), lp, rp)
  {
    var i := 0;
    ghost var l := L;
    assert L == L + Interval(BYTTAB * b, BYTTAB * b);
    while i < BYTTAB
      invariant 0 <= i <= BYTTAB && cm.Tree() && cm.Private(b) && Running(cm, nfa, K, l, lp, rp)
      invariant l == L + Interval(BYTTAB * b, BYTTAB * b + i)
    {
      ghost var i0 := i;
      i := SubRun(cm, nfa, b, i, lp, rp, K, l);
      l := l + Interval(BYTTAB * b + i0, BYTTAB * b + i);
    }
  }

  /** List one tree block of characters. */
  method SubBlock(cm: ColorMap, nfa: Nfa, start: int, lp: nat, rp: nat, ghost K: Start, ghost L: set<int>)
    requires Running(cm, nfa, K, L, lp, rp) && 0 <= start < CHRS && start % BYTTAB == 0
    modifies cm`cd, cm`max, cm`free, cm`chain, cm`flat, cm`blocks, cm.top, cm.blocks, nfa`arcs
    ensures Running(cm, nfa, K, L + Interval(start, start + BYTTAB), lp, rp) && (forall t :: t in cm.blocks && t !in old(cm.blocks) ==> fresh(t))
  {
    var b := start / BYTTAB;
    assert BlockChars(b) == Interval(start, start + BYTTAB);
    var shared := IsShared(cm, b);
    if shared {
      SubSolid(cm, nfa, b, lp, rp, K, L);
    } else {
      SubMixed(cm, nfa, b, lp, rp, K, L);
    }
  }

  /** Whether a block is the fill block or a solid one. */
  method IsShared(cm: ColorMap, b: int) returns (shared: bool)
    requires cm.Tree() && 0 <= b < BYTTAB
    ensures if shared then cm.Shared(b) else cm.Private(b)
  {
    var t := cm.top[b];
    assert t[0] == cm.flat[BYTTAB * b + 0];
    assert cm.Solid(WHITE);
    var cb := cm.cd[t[0]].block;
    shared := t == cm.fill || t == cb;
  }

  /** The characters from `lo` on that have been listed, besides those of `L`. */
  function UpTo(L: set<int>, lo: int, from: int): set<int>
    requires lo <= from
  {
    L + Interval(lo, from)
  }

  lemma UpToMore(L: set<int>, lo: int, from: int, to: int)
    requires lo <= from <= to
    ensures UpTo(L, lo, from) + Interval(from, to) == UpTo(L, lo, to) && UpTo(L, lo, lo) == L
    ensures to == from + 1 ==> UpTo(L, lo, from) + {from} == UpTo(L, lo, to)
  {
  }

  /** List characters one by one, as many as `n`, up to `last`. */
  method SubSome(cm: ColorMap, nfa: Nfa, first: int, last: int, n: int, lp: nat, rp: nat, ghost K: Start, ghost L: set<int>, ghost lo: int)
    returns (from: int)
    requires 0 <= lo <= first <= last + 1 && last < CHRS && 0 <= n && Running(cm, nfa, K, UpTo(L, lo, first), lp, rp)
    modifies cm`cd, cm`max, cm`free, cm`chain, cm`flat, cm`blocks, cm.top, cm.blocks, nfa`arcs
    ensures first <= from <= last + 1 && (from == last + 1 || from == first + n)
    ensures Running(cm, nfa, K, UpTo(L, lo, from), lp, rp) && forall t :: t in cm.blocks && t !in old(cm.blocks) ==> fresh(t)
  {
    from := first;
    var i := n;
    while from <= last && i > 0
      invariant first <= from <= last + 1 && 0 <= i && from + i == first + n
      invariant Running(cm, nfa, K, UpTo(L, lo, from), lp, rp) && forall t :: t in cm.blocks && t !in old(cm.blocks) ==> fresh(t)
    {
      SubArc(cm, nfa, from, lp, rp, K, UpTo(L, lo, from));
      UpToMore(L, lo, from, from + 1);
      i, from := i - 1, from + 1;
    }
  }

  /** List whole blocks, as long as more than one block's characters are left. */
  method SubBlocks(cm: ColorMap, nfa: Nfa, first: int, last: int, lp: nat, rp: nat, ghost K: Start, ghost L: set<int>, ghost lo: int)
    returns (from: int)
    requires 0 <= lo <= first <= last < CHRS && first % BYTTAB == 0 && Running(cm, nfa, K, UpTo(L, lo, first), lp, rp)
    modifies cm`cd, cm`max, cm`free, cm`chain, cm`flat, cm`blocks, cm.top, cm.blocks, nfa`arcs
    ensures first <= from <= last < from + BYTTAB
    ensures Running(cm, nfa, K, UpTo(L, lo, from), lp, rp) && forall t :: t in cm.blocks && t !in old(cm.blocks) ==> fresh(t)
  {
    from := first;
    while last - from >= BYTTAB
      invariant first <= from <= last && from % BYTTAB == 0
      invariant Running(cm, nfa, K, UpTo(L, lo, from), lp, rp) && forall t :: t in cm.blocks && t !in old(cm.blocks) ==> fresh(t)
      decreases last - from
    {
      SubBlock(cm, nfa, from, lp, rp, K, UpTo(L, lo, from));
      UpToMore(L, lo, from, from + BYTTAB);
      from := from + BYTTAB;
    }
  }

  /** How many characters there are from `c` to the next block boundary. */
  method ToBoundary(c: nat) returns (i: nat)
    ensures i < BYTTAB && (c + i) % BYTTAB == 0
  {
    i := (c + BYTTAB - 1) / BYTTAB * BYTTAB - c;
  }

  /** List a range of characters: up to a block boundary, whole blocks, and the rest. */
  method SubRange(cm: ColorMap, nfa: Nfa, first: int, last: int, lp: nat, rp: nat, ghost K: Start, ghost L: set<int>)
    requires Running(cm, nfa, K, L, lp, rp) && 0 <= first <= last < CHRS
    modifies cm`cd, cm`max, cm`free, cm`chain, cm`flat, cm`blocks, cm.top, cm.blocks, nfa`arcs
    ensures Running(cm, nfa, K, UpTo(L, first, last + 1), lp, rp) && forall t :: t in cm.blocks && t !in old(cm.blocks) ==> fresh(t)
  {
    var i := ToBoundary(first);
    UpToMore(L, first, first, first);
    var from := SubSome(cm, nfa, first, last, i, lp, rp, K, L, first);
    if from > last {
      return;
    }
    from := SubBlocks(cm, nfa, from, last, lp, rp, K, L, first);
    from := SubSome(cm, nfa, from, last, BYTTAB, lp, rp, K, L, first);
  }

  // ----- promotion

  /** Every subcolour below `co` has been dealt with, unless its parent is still to come. */
  ghost predicate Promoted(cd: seq<Desc>, max: nat, co: int) {
    forall k :: 0 <= k < co && Used(cd, max, k) ==> cd[k].sub == NOSUB || cd[k].sub == k
  }

  lemma AllPromoted(flat: seq<int>, cd: seq<Desc>, max: nat, end: int)
    requires Tallied(flat, cd, max) && Promoted(cd, max, end) && max < end
    ensures NoneOpen(cd, max)
  {
    forall k | Used(cd, max, k) ensures cd[k].sub == NOSUB {
      forall p | true ensures !IsParent(cd, max, p, k) {
        assert Used(cd, max, p) ==> cd[p].sub == NOSUB || cd[p].sub == p;
      }
      assert Parented(cd, max, k);
    }
  }

  function Relabelled(S: set<Arc>, sco: int): set<Arc> { set a | a in S :: a.(co := sco) }

  /** Give the arcs of colour `co` parallel arcs of colour `sco`. */
  method CopyArcs(nfa: Nfa, co: int, sco: int)
    requires nfa.Valid() && co != sco
    modifies nfa`arcs
    ensures nfa.Valid() && nfa.arcs == old(nfa.arcs) + Recolored(old(nfa.arcs), co, sco)
  {
    ghost var A := nfa.arcs;
    var todo := ColorArcsOf(nfa.arcs, co);
    while todo != {}
      invariant nfa.Valid() && todo <= ColorArcsOf(A, co) && A <= nfa.arcs
      invariant nfa.arcs == A + Relabelled(ColorArcsOf(A, co) - todo, sco)
      decreases todo
    {
      var a :| a in todo;
      nfa.NewArc(a.kind, sco, a.from, a.to);
      todo := todo - {a};
    }
  }

  /** Change the colour of the arcs of colour `co` to `sco`. */
  method MoveArcs(nfa: Nfa, co: int, sco: int)
    requires nfa.Valid() && co != sco
    modifies nfa`arcs
    ensures nfa.Valid() && nfa.arcs == old(nfa.arcs) - ColorArcsOf(old(nfa.arcs), co) + Recolored(old(nfa.arcs), co, sco)
  {
    ghost var A := nfa.arcs;
    var todo := ColorArcsOf(nfa.arcs, co);
    while todo != {}
      invariant nfa.Valid() && todo <= ColorArcsOf(A, co) && todo <= nfa.arcs
      invariant nfa.arcs == A - (ColorArcsOf(A, co) - todo) + Relabelled(ColorArcsOf(A, co) - todo, sco)
      decreases todo
    {
      var a :| a in todo;
      nfa.FreeArc(a);
      nfa.NewArc(a.kind, sco, a.from, a.to);
      todo := todo - {a};
    }
  }

  /** Close the pair of `co` and its open subcolour. */
  method ClosePair(cm: ColorMap, co: nat, sco: nat)
    requires cm.Tree() && FreeChain(cm.cd, cm.max, cm.free, cm.chain) && Used(cm.cd, cm.max, co) && Used(cm.cd, cm.max, sco)
    modifies cm`cd
    ensures cm.Tree() && FreeChain(cm.cd, cm.max, cm.free, cm.chain) && cm.cd == ClosedPair(old(cm.cd), co, sco)
  {
    cm.cd := cm.cd[co := cm.cd[co].(sub := NOSUB)];
    cm.cd := cm.cd[sco := cm.cd[sco].(sub := NOSUB)];
    cm.TreeKept();
    ChainKept(old(cm.cd), cm.cd, cm.max, cm.free, cm.chain);
  }

  /** Deal with the subcolour of `co`, if it has one. */
  method OkColor(cm: ColorMap, nfa: Nfa, co: nat, ghost end: nat, lp: nat, rp: nat, ghost K: Start, ghost L: set<int>)
    requires Running(cm, nfa, K, L, lp, rp) && Promoted(cm.cd, cm.max, co) && co < end <= |cm.cd| && cm.max < end
    requires forall k :: cm.max < k < end ==> cm.cd[k].unused
    modifies cm`cd, cm`max, cm`free, cm`chain, nfa`arcs
    ensures Running(cm, nfa, K, L, lp, rp) && Promoted(cm.cd, cm.max, co + 1) && end <= |cm.cd| && cm.max < end
    ensures forall k :: cm.max < k < end ==> cm.cd[k].unused
  {
    var sco := cm.cd[co].sub;
    if cm.cd[co].unused || sco == NOSUB {
      // has no subcolour
    } else if sco == co {
      // is a subcolour
    } else {
      assert Used(cm.cd, cm.max, co) && IsParent(cm.cd, cm.max, co, sco);
      assert GoodColor(cm.flat, cm.cd, cm.max, co);
      if cm.cd[co].nchrs == 0 {
        OkEmpty(cm, nfa, co, sco, end, lp, rp, K, L);
      } else {
        OkParent(cm, nfa, co, sco, lp, rp, K, L);
      }
    }
  }

  /** The parent is empty: its arcs change colour to the subcolour, and it is freed. */
  method OkEmpty(cm: ColorMap, nfa: Nfa, co: nat, sco: nat, ghost end: nat, lp: nat, rp: nat, ghost K: Start, ghost L: set<int>)
    requires Running(cm, nfa, K, L, lp, rp) && Promoted(cm.cd, cm.max, co) && IsParent(cm.cd, cm.max, co, sco) && Open(cm.cd, cm.max, sco)
    requires cm.cd[co].nchrs == 0 && co < end <= |cm.cd| && cm.max < end && forall k :: cm.max < k < end ==> cm.cd[k].unused
    modifies cm`cd, cm`max, cm`free, cm`chain, nfa`arcs
    ensures Running(cm, nfa, K, L, lp, rp) && Promoted(cm.cd, cm.max, co + 1) && end <= |cm.cd| && cm.max < end
    ensures forall k :: cm.max < k < end ==> cm.cd[k].unused
  {
    ghost var flat, cd0, A := cm.flat, cm.cd, nfa.arcs;
    EmptyColor(flat, cm.cd, cm.max, co);
    ClosePair(cm, co, sco);
    MoveArcs(nfa, co, sco);
    SessionClose(flat, cd0, cm.max, co, sco, A, nfa.arcs, K, L, lp, rp);
    ghost var cd1, max1 := cm.cd, cm.max;
    assert ColorArcsOf(nfa.arcs, co) == {};
    PromotedOn(cd0, cm.max, co, sco);
    label Closed:
    cm.FreeColor(co);
    if co != WHITE {
      SessionFree(flat, cd1, max1, cm.cd, cm.max, co, nfa.arcs, K, L, lp, rp);
    }
    cm.TreeKept@Closed();
  }

  /** The parent's arcs gain parallel subcolour arcs. */
  method OkParent(cm: ColorMap, nfa: Nfa, co: nat, sco: nat, lp: nat, rp: nat, ghost K: Start, ghost L: set<int>)
    requires Running(cm, nfa, K, L, lp, rp) && Promoted(cm.cd, cm.max, co) && IsParent(cm.cd, cm.max, co, sco) && Open(cm.cd, cm.max, sco)
    modifies cm`cd, nfa`arcs
    ensures Running(cm, nfa, K, L, lp, rp) && Promoted(cm.cd, cm.max, co + 1)
    ensures |cm.cd| == |old(cm.cd)| && forall k :: 0 <= k < |cm.cd| ==> cm.cd[k].unused == old(cm.cd)[k].unused
  {
    ghost var cd0, A := cm.cd, nfa.arcs;
    ClosePair(cm, co, sco);
    CopyArcs(nfa, co, sco);
    SessionClose(cm.flat, cd0, cm.max, co, sco, A, nfa.arcs, K, L, lp, rp);
    PromotedOn(cd0, cm.max, co, sco);
  }

  lemma EmptyColor(flat: seq<int>, cd: seq<Desc>, max: nat, co: nat)
    requires Tallied(flat, cd, max) && Used(cd, max, co) && cd[co].nchrs == 0
    ensures CharsOf(flat, co) == {}
  {
    assert GoodColor(flat, cd, max, co);
  }

  lemma PromotedOn(cd: seq<Desc>, max: nat, co: nat, sco: nat)
    requires Promoted(cd, max, co) && Used(cd, max, co) && Used(cd, max, sco)
    ensures Promoted(ClosedPair(cd, co, sco), max, co + 1)
  {
    forall k | 0 <= k < co + 1 && Used(ClosedPair(cd, co, sco), max, k)
      ensures ClosedPair(cd, co, sco)[k].sub == NOSUB || ClosedPair(cd, co, sco)[k].sub == k
    {
      ClosedEntry(cd, co, sco, k);
    }
  }

  /** Promote subcolours to full colours. Nothing changes in what the arcs let through. */
  method OkColors(cm: ColorMap, nfa: Nfa, lp: nat, rp: nat, ghost K: Start, ghost L: set<int>)
    requires Running(cm, nfa, K, L, lp, rp)
    modifies cm`cd, cm`max, cm`free, cm`chain, nfa`arcs
    ensures Running(cm, nfa, K, L, lp, rp) && NoneOpen(cm.cd, cm.max)
  {
    var end := cm.max + 1;
    for co := 0 to end
      invariant Running(cm, nfa, K, L, lp, rp) && Promoted(cm.cd, cm.max, co) && end <= |cm.cd| && cm.max < end
      invariant forall k :: cm.max < k < end ==> cm.cd[k].unused
    {
      OkColor(cm, nfa, co, end, lp, rp, K, L);
    }
    AllPromoted(cm.flat, cm.cd, cm.max, end);
  }
}

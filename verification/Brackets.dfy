/** Bracket expressions, complemented ones, and the arcs of all colours. */
module Brackets {
  import opened Automaton
  import opened Surgery
  import opened NfaModel
  import opened ColorFacts
  import opened ColorSession
  import opened ColorMap
  import opened ColorArcs

  /** One element of a bracket expression. */
  datatype Item = One(c: int) | Range(first: int, last: int)

  predicate GoodItem(i: Item) { if i.One? then 0 <= i.c < CHRS else 0 <= i.first <= i.last < CHRS }

  function ItemChars(i: Item): set<int> { if i.One? then {i.c} else Interval(i.first, i.last + 1) }

  function Listed(items: seq<Item>): set<int> { set i, c | i in items && c in ItemChars(i) :: c }

  /** A range lists its first and its last character, and all those between. */
  lemma ItemsList(items: seq<Item>, c: int)
    ensures c in Listed(items) <==> exists i :: i in items && (if i.One? then c == i.c else i.first <= c <= i.last)
  {
    forall i | i in items ensures c in ItemChars(i) <==> if i.One? then c == i.c else i.first <= c <= i.last {
      if i.Range? && i.first <= c <= i.last {
        assert Between(i.first, c, i.last + 1);
      }
    }
  }

  /** The map and the arcs, with no subcolour open. */
  ghost predicate Settled(cm: ColorMap, nfa: Nfa)
    reads cm, cm.top, cm.blocks, nfa
  {
    && cm.Tree() && FreeChain(cm.cd, cm.max, cm.free, cm.chain) && Tallied(cm.flat, cm.cd, cm.max)
    && ArcsUsed(cm.cd, cm.max, nfa.arcs) && NoneOpen(cm.cd, cm.max) && nfa.Valid()
  }

  /** What a bracket expression from `lp` to `rp` lets through. */
  ghost function ListedPassages(L: set<int>, lp: nat, rp: nat): iset<Passage> { iset c | c in L :: (Plain, lp, rp, c) }

  /** Arcs for the listed characters, and for no others; all other arcs keep their meaning,
      though the colours may be split in the process. */
  method Bracket(cm: ColorMap, nfa: Nfa, items: seq<Item>, lp: nat, rp: nat)
    requires Settled(cm, nfa) && lp in nfa.states && rp in nfa.states && forall i :: i in items ==> GoodItem(i)
    modifies cm`cd, cm`max, cm`free, cm`chain, cm`flat, cm`blocks, cm.top, cm.blocks, nfa`arcs
    ensures Settled(cm, nfa) && forall t :: t in cm.blocks && t !in old(cm.blocks) ==> fresh(t)
    ensures Passages(cm.flat, nfa.arcs) == Passages(old(cm.flat), old(nfa.arcs)) + ListedPassages(Listed(items), lp, rp)
    ensures forall c :: 0 <= c < CHRS ==>
      (Arc(Plain, cm.flat[c], lp, rp) in nfa.arcs <==>
       Arc(Plain, old(cm.flat)[c], lp, rp) in old(nfa.arcs) || exists i :: i in items && (if i.One? then c == i.c else i.first <= c <= i.last))
    ensures forall kind, from: nat, to: nat, c :: 0 <= c < CHRS && (kind == Plain || kind == Ahead || kind == Behind) && (kind, from, to) != (Plain, lp, rp) ==>
      (Arc(kind, cm.flat[c], from, to) in nfa.arcs <==> Arc(kind, old(cm.flat)[c], from, to) in old(nfa.arcs))
    ensures forall a :: a in nfa.arcs ==> SpanKept(a, StartOf(old(cm.flat), old(nfa.arcs)), lp, rp)
  {
    ghost var K := StartOf(cm.flat, nfa.arcs);
    SessionStart(cm.flat, cm.cd, cm.max, nfa.arcs, lp, rp);
    assert Listed(items[..0]) == {};
    for n := 0 to |items|
      invariant Running(cm, nfa, K, Listed(items[..n]), lp, rp)
      invariant forall t :: t in cm.blocks && t !in old(cm.blocks) ==> fresh(t)
    {
      ListedMore(items, n);
      BracketPart(cm, nfa, items[n], lp, rp, K, Listed(items[..n]));
    }
    assert items[..|items|] == items;
    OkColors(cm, nfa, lp, rp, K, Listed(items));
    BracketEnd(cm.flat, cm.cd, cm.max, nfa.arcs, K, Listed(items), lp, rp);
    ListedMeans(old(cm.flat), old(nfa.arcs), cm.flat, nfa.arcs, items, lp, rp);
  }

  /** What more passages mean for the arcs. */
  lemma PassagesAre(flat: seq<int>, arcs: set<Arc>)
    requires |flat| == CHRS
    ensures forall kind, from: nat, to: nat, c :: 0 <= c < CHRS && (kind == Plain || kind == Ahead || kind == Behind) ==>
      (Arc(kind, flat[c], from, to) in arcs <==> (kind, from, to, c) in Passages(flat, arcs))
  {
  }

  lemma ListedMeans(flat: seq<int>, arcs: set<Arc>, flat': seq<int>, arcs': set<Arc>, items: seq<Item>, lp: nat, rp: nat)
    requires |flat| == |flat'| == CHRS && Passages(flat', arcs') == Passages(flat, arcs) + ListedPassages(Listed(items), lp, rp)
    ensures forall c :: 0 <= c < CHRS ==>
      (Arc(Plain, flat'[c], lp, rp) in arcs' <==>
       Arc(Plain, flat[c], lp, rp) in arcs || exists i :: i in items && (if i.One? then c == i.c else i.first <= c <= i.last))
    ensures forall kind, from: nat, to: nat, c :: 0 <= c < CHRS && (kind == Plain || kind == Ahead || kind == Behind) && (kind, from, to) != (Plain, lp, rp) ==>
      (Arc(kind, flat'[c], from, to) in arcs' <==> Arc(kind, flat[c], from, to) in arcs)
  {
    PassagesAre(flat, arcs);
    PassagesAre(flat', arcs');
    forall c | 0 <= c < CHRS ensures c in Listed(items) <==> exists i :: i in items && (if i.One? then c == i.c else i.first <= c <= i.last) {
      ItemsList(items, c);
    }
  }

  lemma OtherMeans(flat: seq<int>, arcs: set<Arc>, flat': seq<int>, arcs': set<Arc>, items: seq<Item>, lp: nat, rp: nat)
    requires |flat| == |flat'| == CHRS && Passages(flat', arcs') == Passages(flat, arcs) + OtherPassages(Listed(items), lp, rp)
    ensures forall c :: 0 <= c < CHRS ==>
      (Arc(Plain, flat'[c], lp, rp) in arcs' <==>
       Arc(Plain, flat[c], lp, rp) in arcs || !exists i :: i in items && (if i.One? then c == i.c else i.first <= c <= i.last))
    ensures forall kind, from: nat, to: nat, c :: 0 <= c < CHRS && (kind == Plain || kind == Ahead || kind == Behind) && (kind, from, to) != (Plain, lp, rp) ==>
      (Arc(kind, flat'[c], from, to) in arcs' <==> Arc(kind, flat[c], from, to) in arcs)
  {
    PassagesAre(flat, arcs);
    PassagesAre(flat', arcs');
    forall c | 0 <= c < CHRS ensures c in Listed(items) <==> exists i :: i in items && (if i.One? then c == i.c else i.first <= c <= i.last) {
      ItemsList(items, c);
    }
  }

  lemma ListedMore(items: seq<Item>, n: nat)
    requires n < |items|
    ensures Listed(items[..n + 1]) == Listed(items[..n]) + ItemChars(items[n])
  {
    assert items[..n + 1] == items[..n] + [items[n]];
  }

  /** One character or range. */
  method BracketPart(cm: ColorMap, nfa: Nfa, item: Item, lp: nat, rp: nat, ghost K: Start, ghost L: set<int>)
    requires Running(cm, nfa, K, L, lp, rp) && GoodItem(item)
    modifies cm`cd, cm`max, cm`free, cm`chain, cm`flat, cm`blocks, cm.top, cm.blocks, nfa`arcs
    ensures Running(cm, nfa, K, L + ItemChars(item), lp, rp) && forall t :: t in cm.blocks && t !in old(cm.blocks) ==> fresh(t)
  {
    match item {
      case One(c) => SubArc(cm, nfa, c, lp, rp, K, L);
      case Range(first, last) => SubRange(cm, nfa, first, last, lp, rp, K, L);
    }
  }

  lemma BracketEnd(flat: seq<int>, cd: seq<Desc>, max: nat, arcs: set<Arc>, K: Start, L: set<int>, lp: nat, rp: nat)
    requires Session(flat, cd, max, arcs, K, L, lp, rp) && NoneOpen(cd, max) && L <= Interval(0, CHRS)
    requires forall k :: k in K.passages ==> Coloring(k.0) && 0 <= k.3 < CHRS
    ensures Passages(flat, arcs) == K.passages + ListedPassages(L, lp, rp)
  {
    SessionEnd(flat, cd, max, arcs, K, L, lp, rp);
  }

  // ----- complements

  ghost predicate HasPlain(arcs: set<Arc>, of: nat, co: int) { exists a :: a in arcs && a.kind == Plain && a.from == of && a.co == co }

  ghost function ComplementArcs(cd: seq<Desc>, end: int, max: nat, arcs: set<Arc>, kind: Kind, of: nat, from: nat, to: nat): set<Arc> {
    set co | 0 <= co < end && Real(cd, max, co) && !HasPlain(arcs, of, co) :: Arc(kind, co, from, to)
  }

  /** Add arcs of the colours that no Plain arc out of `of` has. */
  method ColorComplement(cm: ColorMap, nfa: Nfa, kind: Kind, of: nat, from: nat, to: nat)
    requires cm.max < |cm.cd| && nfa.Valid() && of != from && from in nfa.states && to in nfa.states
    modifies nfa`arcs
    ensures nfa.Valid()
    ensures nfa.arcs == old(nfa.arcs) + ComplementArcs(cm.cd, cm.max + 1, cm.max, old(nfa.arcs), kind, of, from, to)
  {
    ghost var A := nfa.arcs;
    for co := 0 to cm.max + 1
      invariant nfa.Valid() && nfa.arcs == A + ComplementArcs(cm.cd, co, cm.max, A, kind, of, from, to)
    {
      ComplementOn(A, cm.cd, co, cm.max, kind, of, from, to);
      if !cm.cd[co].unused && !cm.cd[co].pseudo {
        var found := FindArc(nfa, of, co);
        if !found {
          nfa.NewArc(kind, co, from, to);
        }
      }
    }
  }

  /** One more colour: the arcs added so far are not out of `of`. */
  lemma ComplementOn(A: set<Arc>, cd: seq<Desc>, co: int, max: nat, kind: Kind, of: nat, from: nat, to: nat)
    requires of != from && 0 <= co <= max < |cd|
    ensures var B := A + ComplementArcs(cd, co, max, A, kind, of, from, to);
            A + ComplementArcs(cd, co + 1, max, A, kind, of, from, to) ==
              if Real(cd, max, co) && !HasPlain(B, of, co) then B + {Arc(kind, co, from, to)} else B
  {
    var C, D := ComplementArcs(cd, co, max, A, kind, of, from, to), ComplementArcs(cd, co + 1, max, A, kind, of, from, to);
    assert HasPlain(A + C, of, co) <==> HasPlain(A, of, co);
    forall b | b in D ensures b in C || b.co == co {
    }
  }

  /** Whether some Plain arc of colour `co` leaves `of`. */
  method FindArc(nfa: Nfa, of: nat, co: int) returns (found: bool)
    ensures found <==> HasPlain(nfa.arcs, of, co)
  {
    var outs := OutArcs(nfa.arcs, of);
    found := false;
    while outs != {} && !found
      invariant outs <= OutArcs(nfa.arcs, of)
      invariant found ==> HasPlain(nfa.arcs, of, co)
      invariant !found ==> forall a :: a in OutArcs(nfa.arcs, of) - outs ==> !(a.kind == Plain && a.co == co)
      decreases outs
    {
      var a :| a in outs;
      found := a.kind == Plain && a.co == co;
      outs := outs - {a};
    }
    assert forall a :: a in nfa.arcs && a.from == of ==> a in OutArcs(nfa.arcs, of);
  }

  /** The complement lets through exactly the characters that no Plain arc out of `of` does. */
  lemma ComplementExact(flat: seq<int>, cd: seq<Desc>, max: nat, arcs: set<Arc>, kind: Kind, of: nat, from: nat, to: nat, c: int)
    requires Tallied(flat, cd, max) && 0 <= c < CHRS && Coloring(kind)
    ensures (kind, from, to, c) in Passages(flat, arcs + ComplementArcs(cd, max + 1, max, arcs, kind, of, from, to)) <==>
              (kind, from, to, c) in Passages(flat, arcs) || forall t: nat :: (Plain, of, t, c) !in Passages(flat, arcs)
  {
    var co := flat[c];
    assert Real(cd, max, co);
    if HasPlain(arcs, of, co) {
      var a :| a in arcs && a.kind == Plain && a.from == of && a.co == co;
      assert (Plain, of, a.to, c) in Passages(flat, arcs);
    }
  }

  /** Other passages are not affected. */
  lemma ComplementOnly(flat: seq<int>, cd: seq<Desc>, max: nat, arcs: set<Arc>, kind: Kind, of: nat, from: nat, to: nat, p: Passage)
    requires (p.0, p.1, p.2) != (kind, from, to)
    ensures p in Passages(flat, arcs + ComplementArcs(cd, max + 1, max, arcs, kind, of, from, to)) <==> p in Passages(flat, arcs)
  {
  }

  // ----- all colours

  ghost function RainbowArcs(cd: seq<Desc>, end: int, max: nat, kind: Kind, but: int, from: nat, to: nat): set<Arc> {
    set co | 0 <= co < end && Real(cd, max, co) && cd[co].sub != co && co != but :: Arc(kind, co, from, to)
  }

  /** Add arcs of all full colours but one. */
  method RainbowOf(cm: ColorMap, nfa: Nfa, kind: Kind, but: int, from: nat, to: nat)
    requires cm.max < |cm.cd| && nfa.Valid() && from in nfa.states && to in nfa.states
    modifies nfa`arcs
    ensures nfa.Valid() && nfa.arcs == old(nfa.arcs) + RainbowArcs(cm.cd, cm.max + 1, cm.max, kind, but, from, to)
  {
    ghost var A := nfa.arcs;
    for co := 0 to cm.max + 1
      invariant nfa.Valid() && nfa.arcs == A + RainbowArcs(cm.cd, co, cm.max, kind, but, from, to)
    {
      if !cm.cd[co].unused && cm.cd[co].sub != co && co != but && !cm.cd[co].pseudo {
        nfa.NewArc(kind, co, from, to);
      }
    }
  }

  /** Character `c` has colour `but`, or a colour that is an open subcolour of it. */
  ghost predicate Excluded(flat: seq<int>, cd: seq<Desc>, max: nat, but: int, c: int)
    requires 0 <= c < |flat|
  {
    (flat[c] == but && !Open(cd, max, but)) || IsParent(cd, max, but, flat[c])
  }

  /** Of the characters, a rainbow lets through exactly those that do not have the colour left
      out, open subcolours or not. */
  lemma RainbowLets(flat: seq<int>, cd: seq<Desc>, max: nat, arcs: set<Arc>, kind: Kind, but: int, from: nat, to: nat, c: int)
    requires Tallied(flat, cd, max) && 0 <= c < CHRS && Coloring(kind)
    ensures Lets(flat, cd, max, arcs + RainbowArcs(cd, max + 1, max, kind, but, from, to), kind, from, to, c) <==>
              Lets(flat, cd, max, arcs, kind, from, to, c) || !Excluded(flat, cd, max, but, c)
    ensures NoneOpen(cd, max) ==>
      (Arc(kind, flat[c], from, to) in arcs + RainbowArcs(cd, max + 1, max, kind, but, from, to) <==> Arc(kind, flat[c], from, to) in arcs || flat[c] != but)
  {
    var co, R := flat[c], RainbowArcs(cd, max + 1, max, kind, but, from, to);
    assert Real(cd, max, co) && GoodColor(flat, cd, max, co);
    forall p | IsParent(cd, max, p, co)
      ensures Open(cd, max, co) && (Arc(kind, p, from, to) in R <==> p != but)
    {
      assert GoodColor(flat, cd, max, p) && OneParent(cd, max, co, p, but);
    }
    if Open(cd, max, co) {
      assert Parented(cd, max, co);
      var p :| IsParent(cd, max, p, co);
      assert p != but ==> Arc(kind, p, from, to) in R && !IsParent(cd, max, but, co) by { assert OneParent(cd, max, co, p, but); }
      assert forall q :: IsParent(cd, max, q, co) ==> q == p by {
        forall q | IsParent(cd, max, q, co) ensures q == p { assert OneParent(cd, max, co, p, q); }
      }
    } else {
      assert Arc(kind, co, from, to) in R <==> co != but;
    }
  }

  // ----- a complemented bracket expression

  /** What a complemented bracket expression from `lp` to `rp` lets through. */
  ghost function OtherPassages(L: set<int>, lp: nat, rp: nat): iset<Passage> {
    iset c | 0 <= c < CHRS && c !in L :: (Plain, lp, rp, c)
  }

  /** The dummy bracket, its complement, and the dummy taken away again. */
  lemma ComplementOfDummy(flat: seq<int>, cd: seq<Desc>, max: nat, P: iset<Passage>, A: set<Arc>, B: set<Arc>, L: set<int>,
                          left: nat, right: nat, lp: nat, rp: nat)
    requires Tallied(flat, cd, max) && left != right && lp != left && rp != left && lp != right && rp != right
    requires Passages(flat, A) == P + ListedPassages(L, left, right)
    requires forall p :: p in P ==> p.1 != left && p.2 != left && p.1 != right && p.2 != right
    requires var C := A + ComplementArcs(cd, max + 1, max, A, Plain, left, lp, rp);
             B == C - InArcs(C, left) - OutArcs(C, left)
    ensures Passages(flat, B) == P + OtherPassages(L, lp, rp)
  {
    var C := A + ComplementArcs(cd, max + 1, max, A, Plain, left, lp, rp);
    forall kind: Kind, from: nat, to: nat, c: int | true
      ensures (kind, from, to, c) in Passages(flat, B) <==> (kind, from, to, c) in P + OtherPassages(L, lp, rp)
    {
      var p := (kind, from, to, c);
      if 0 <= c < CHRS && Coloring(kind) {
        var a := Arc(kind, flat[c], from, to);
        assert a in B <==> a in C && from != left && to != left by {
          assert a in InArcs(C, left) <==> a in C && to == left;
          assert a in OutArcs(C, left) <==> a in C && from == left;
        }
        assert p in Passages(flat, B) <==> p in Passages(flat, C) && from != left && to != left;
        if (kind, from, to) == (Plain, lp, rp) {
          ComplementExact(flat, cd, max, A, Plain, left, lp, rp, c);
          assert c in L <==> (Plain, left, right, c) in Passages(flat, A);
        } else {
          ComplementOnly(flat, cd, max, A, Plain, left, lp, rp, p);
        }
      }
    }
  }

  lemma SettledArcs(cd: seq<Desc>, max: nat, arcs: set<Arc>, kind: Kind, of: nat, from: nat, to: nat)
    requires ArcsUsed(cd, max, arcs)
    ensures ArcsUsed(cd, max, arcs + ComplementArcs(cd, max + 1, max, arcs, kind, of, from, to))
  {
  }

  /** Take the dummy's ends away; by then nothing but arcs out of the left end enters the right one. */
  method DropDummy(nfa: Nfa, left: nat, right: nat)
    requires nfa.Valid() && left in nfa.states && right in nfa.states && left != right && !nfa.Flagged(left) && !nfa.Flagged(right)
    requires Untouched(nfa.arcs - InArcs(nfa.arcs, left) - OutArcs(nfa.arcs, left), right)
    modifies nfa`arcs, nfa`states, nfa`no
    ensures nfa.Valid() && nfa.arcs == old(nfa.arcs) - InArcs(old(nfa.arcs), left) - OutArcs(old(nfa.arcs), left)
  {
    WithoutMembers(nfa.states, left);
    nfa.DropState(left);
    nfa.FreeState(right);
  }

  lemma SettledFewer(cd: seq<Desc>, max: nat, arcs: set<Arc>, fewer: set<Arc>)
    requires ArcsUsed(cd, max, arcs) && fewer <= arcs
    ensures ArcsUsed(cd, max, fewer)
  {
  }

  /** Arcs from `lp` to `rp` for all characters but the listed ones, by way of a bracket
      expression with dummy end points; all other arcs keep their meaning. */
  method CBracket(cm: ColorMap, nfa: Nfa, items: seq<Item>, lp: nat, rp: nat)
    requires Settled(cm, nfa) && lp in nfa.states && rp in nfa.states && forall i :: i in items ==> GoodItem(i)
    modifies cm`cd, cm`max, cm`free, cm`chain, cm`flat, cm`blocks, cm.top, cm.blocks
    modifies nfa`arcs, nfa`states, nfa`fresh_, nfa`no, nfa`nstates
    ensures Settled(cm, nfa)
    ensures Passages(cm.flat, nfa.arcs) == Passages(old(cm.flat), old(nfa.arcs)) + OtherPassages(Listed(items), lp, rp)
    ensures forall c :: 0 <= c < CHRS ==>
      (Arc(Plain, cm.flat[c], lp, rp) in nfa.arcs <==>
       Arc(Plain, old(cm.flat)[c], lp, rp) in old(nfa.arcs) || !exists i :: i in items && (if i.One? then c == i.c else i.first <= c <= i.last))
    ensures forall kind, from: nat, to: nat, c :: 0 <= c < CHRS && (kind == Plain || kind == Ahead || kind == Behind) && (kind, from, to) != (Plain, lp, rp) ==>
      (Arc(kind, cm.flat[c], from, to) in nfa.arcs <==> Arc(kind, old(cm.flat)[c], from, to) in old(nfa.arcs))
  {
    ghost var A0, F0 := nfa.arcs, cm.flat;
    var left := nfa.NewState();
    var right := nfa.NewState();
    Bracket(cm, nfa, items, left, right);
    ComplementDummy(cm, nfa, left, right, lp, rp, Listed(items), A0, F0);
    OtherMeans(F0, A0, cm.flat, nfa.arcs, items, lp, rp);
  }

  /** The arcs of the dummy turned into those of the complement. */
  method ComplementDummy(cm: ColorMap, nfa: Nfa, left: nat, right: nat, lp: nat, rp: nat, ghost L: set<int>, ghost A0: set<Arc>, ghost F0: seq<int>)
    requires Settled(cm, nfa) && lp in nfa.states && rp in nfa.states && left in nfa.states && right in nfa.states
    requires left != right && lp != left && rp != left && lp != right && rp != right && !nfa.Flagged(left) && !nfa.Flagged(right)
    requires Untouched(A0, left) && Untouched(A0, right)
    requires Passages(cm.flat, nfa.arcs) == Passages(F0, A0) + ListedPassages(L, left, right)
    requires forall a :: a in nfa.arcs ==> SpanKept(a, StartOf(F0, A0), left, right)
    modifies nfa`arcs, nfa`states, nfa`no
    ensures Settled(cm, nfa) && Passages(cm.flat, nfa.arcs) == Passages(F0, A0) + OtherPassages(L, lp, rp)
  {
    ghost var A := nfa.arcs;
    ColorComplement(cm, nfa, Plain, left, lp, rp);
    ghost var C := nfa.arcs;
    ghost var B := C - InArcs(C, left) - OutArcs(C, left);
    DummyGone(A0, A, cm.flat, F0, cm.cd, cm.max, B, left, right, lp, rp);
    SettledArcs(cm.cd, cm.max, A, Plain, left, lp, rp);
    SettledFewer(cm.cd, cm.max, C, B);
    ComplementOfDummy(cm.flat, cm.cd, cm.max, Passages(F0, A0), A, B, L, left, right, lp, rp);
    DropDummy(nfa, left, right);
  }

  /** With the dummy's left end gone, nothing is left at its right end. */
  lemma DummyGone(A0: set<Arc>, A: set<Arc>, flat: seq<int>, flat0: seq<int>, cd: seq<Desc>, max: nat, B: set<Arc>, left: nat, right: nat, lp: nat, rp: nat)
    requires Untouched(A0, right) && left != right && lp != right && rp != right
    requires forall a :: a in A ==> SpanKept(a, StartOf(flat0, A0), left, right)
    requires var C := A + ComplementArcs(cd, max + 1, max, A, Plain, left, lp, rp);
             B == C - InArcs(C, left) - OutArcs(C, left)
    ensures Untouched(B, right)
  {
    var C := A + ComplementArcs(cd, max + 1, max, A, Plain, left, lp, rp);
    forall b | b in B ensures b.from != right && b.to != right {
      assert b.from == left ==> b in OutArcs(C, left);
      if b in A {
        assert SpanKept(b, StartOf(flat0, A0), left, right);
      }
    }
  }
}

/** What a run of subcolouring, for the arcs from `lp` to `rp`, keeps and achieves. */
module ColorSession {
  import opened Automaton
  import opened ColorFacts

  /** What the arcs let through: arc kind, states, character. */
  type Passage = (Kind, nat, nat, int)

  /** The state of affairs at the start of a run: what is let through, and where arcs are. */
  datatype Start = Start(passages: iset<Passage>, spans: iset<(Kind, nat, nat)>)

  ghost predicate Coloring(kind: Kind) { kind == Plain || kind == Ahead || kind == Behind }

  /** Just what `K` says is let through, and `L` from `lp` to `rp`. */
  ghost predicate LetsRight(flat: seq<int>, cd: seq<Desc>, max: nat, arcs: set<Arc>, K: Start, L: set<int>, lp: nat, rp: nat,
                            kind: Kind, from: nat, to: nat, c: int) {
    0 <= c < |flat| && Coloring(kind) ==>
      (Lets(flat, cd, max, arcs, kind, from, to, c) <==> (kind, from, to, c) in K.passages || (kind == Plain && from == lp && to == rp && c in L))
  }

  /** Characters of open subcolours have been listed. */
  ghost predicate OpenListed(flat: seq<int>, cd: seq<Desc>, max: nat, L: set<int>, c: int) {
    0 <= c < |flat| && Open(cd, max, flat[c]) ==> c in L
  }

  /** Arc `a` runs where one did at the start, or from `lp` to `rp`. */
  ghost predicate SpanKept(a: Arc, K: Start, lp: nat, rp: nat) {
    (a.kind, a.from, a.to) in K.spans || (a.kind, a.from, a.to) == (Plain, lp, rp)
  }

  /** `L` has been listed so far, for the arcs from `lp` to `rp`. */
  ghost predicate Session(flat: seq<int>, cd: seq<Desc>, max: nat, arcs: set<Arc>, K: Start, L: set<int>, lp: nat, rp: nat) {
    && Tallied(flat, cd, max) && ArcsUsed(cd, max, arcs)
    && (forall kind, from, to, c :: LetsRight(flat, cd, max, arcs, K, L, lp, rp, kind, from, to, c))
    && (forall c :: OpenListed(flat, cd, max, L, c))
    && (forall a :: a in arcs && Colored(a) && Open(cd, max, a.co) ==> a == Arc(Plain, a.co, lp, rp))
    && (forall a :: a in arcs ==> SpanKept(a, K, lp, rp))
  }

  /** What `arcs` let through when no subcolour is open. */
  ghost function Passages(flat: seq<int>, arcs: set<Arc>): iset<Passage> {
    iset kind: Kind, from: nat, to: nat, c: int | Coloring(kind) && 0 <= c < |flat| && Arc(kind, flat[c], from, to) in arcs :: (kind, from, to, c)
  }

  ghost function StartOf(flat: seq<int>, arcs: set<Arc>): Start {
    Start(Passages(flat, arcs), iset a | a in arcs :: (a.kind, a.from, a.to))
  }

  lemma SessionStart(flat: seq<int>, cd: seq<Desc>, max: nat, arcs: set<Arc>, lp: nat, rp: nat)
    requires Tallied(flat, cd, max) && ArcsUsed(cd, max, arcs) && NoneOpen(cd, max)
    ensures Session(flat, cd, max, arcs, StartOf(flat, arcs), {}, lp, rp)
  {
    forall k | true ensures !Open(cd, max, k) { assert Used(cd, max, k) ==> cd[k].sub == NOSUB; }
    forall p, s | true ensures !IsParent(cd, max, p, s) { assert Used(cd, max, p) ==> cd[p].sub == NOSUB; }
    forall kind, from, to, c | true ensures LetsRight(flat, cd, max, arcs, StartOf(flat, arcs), {}, lp, rp, kind, from, to, c) {
    }
    forall c | true ensures OpenListed(flat, cd, max, {}, c) {
    }
  }

  /** At the end, with no subcolour open, the arcs let through what they did, and the
      listed characters from `lp` to `rp`. */
  lemma SessionEnd(flat: seq<int>, cd: seq<Desc>, max: nat, arcs: set<Arc>, K: Start, L: set<int>, lp: nat, rp: nat)
    requires Session(flat, cd, max, arcs, K, L, lp, rp) && NoneOpen(cd, max)
    ensures forall kind, from, to, c | 0 <= c < |flat| && Coloring(kind) ::
      (kind, from, to, c) in Passages(flat, arcs) <==> (kind, from, to, c) in K.passages || (kind == Plain && from == lp && to == rp && c in L)
  {
    forall p, s | true ensures !IsParent(cd, max, p, s) { assert Used(cd, max, p) ==> cd[p].sub == NOSUB; }
    forall kind, from, to, c | 0 <= c < |flat| && Coloring(kind)
      ensures (kind, from, to, c) in Passages(flat, arcs) <==> (kind, from, to, c) in K.passages || (kind == Plain && from == lp && to == rp && c in L)
    {
      assert LetsRight(flat, cd, max, arcs, K, L, lp, rp, kind, from, to, c);
    }
  }

  // ----- opening a subcolour

  lemma SessionOpen(flat: seq<int>, cd: seq<Desc>, max: nat, cd': seq<Desc>, max': nat, co: nat, sco: nat,
                    arcs: set<Arc>, K: Start, L: set<int>, lp: nat, rp: nat)
    requires Session(flat, cd, max, arcs, K, L, lp, rp)
    requires Opened(cd, max, cd', max', co, sco) && Real(cd, max, co) && cd[co].sub == NOSUB
    ensures Session(flat, cd', max', arcs, K, L, lp, rp)
  {
    OpenKeepsTally(flat, cd, max, cd', max', co, sco);
    ParentsAfterOpening(flat, cd, max, cd', max', co, sco);
    forall k | true ensures Used(cd', max', k) <==> Used(cd, max, k) || k == sco { OpenedEntry(cd, max, cd', max', co, sco, k); }
    forall k | Used(cd, max, k) ensures Open(cd', max', k) <==> Open(cd, max, k) { OpenedEntry(cd, max, cd', max', co, sco, k); }
    forall kind, from, to, c | true ensures LetsRight(flat, cd', max', arcs, K, L, lp, rp, kind, from, to, c) {
      assert LetsRight(flat, cd, max, arcs, K, L, lp, rp, kind, from, to, c);
      if 0 <= c < |flat| {
        assert flat[c] != sco;
      }
    }
    forall c | true ensures OpenListed(flat, cd', max', L, c) { assert OpenListed(flat, cd, max, L, c); }
  }

  // ----- listing characters

  /** The descriptors say the same about what is used, open and whose subcolour. */
  ghost predicate SameSubs(cd: seq<Desc>, cd': seq<Desc>) {
    |cd'| == |cd| && forall k :: 0 <= k < |cd| ==> cd'[k].unused == cd[k].unused && cd'[k].pseudo == cd[k].pseudo && cd'[k].sub == cd[k].sub
  }

  lemma RecountKeepsSubs(cd: seq<Desc>, co: nat, sco: nat, n: int)
    requires co < |cd| && sco < |cd|
    ensures SameSubs(cd, Recounted(cd, co, sco, n))
  {
  }

  /** The characters `C` of colour `co`, moved to its open subcolour and given an arc. */
  lemma SessionMove(flat: seq<int>, flat': seq<int>, cd: seq<Desc>, max: nat, C: set<int>, co: nat, sco: nat,
                    arcs: set<Arc>, K: Start, L: set<int>, lp: nat, rp: nat)
    requires Session(flat, cd, max, arcs, K, L, lp, rp) && CharsMoved(flat, flat', C, co, sco)
    requires IsParent(cd, max, co, sco) && Real(cd, max, co) && Real(cd, max, sco)
    ensures Session(flat', Recounted(cd, co, sco, |C|), max, arcs + {Arc(Plain, sco, lp, rp)}, K, L + C, lp, rp)
  {
    var cd', arcs', L' := Recounted(cd, co, sco, |C|), arcs + {Arc(Plain, sco, lp, rp)}, L + C;
    MoveKeepsTally(flat, flat', cd, max, C, co, sco);
    RecountKeepsSubs(cd, co, sco, |C|);
    forall kind, from, to, c | true ensures LetsRight(flat', cd', max, arcs', K, L', lp, rp, kind, from, to, c) {
      if 0 <= c < |flat| && Coloring(kind) {
        MoveLets(flat, flat', cd, cd', max, C, co, sco, arcs, K, L, lp, rp, kind, from, to, c);
      }
    }
    forall c | true ensures OpenListed(flat', cd', max, L', c) { assert OpenListed(flat, cd, max, L, c); }
  }

  lemma MoveLets(flat: seq<int>, flat': seq<int>, cd: seq<Desc>, cd': seq<Desc>, max: nat, C: set<int>, co: nat, sco: nat,
                 arcs: set<Arc>, K: Start, L: set<int>, lp: nat, rp: nat, kind: Kind, from: nat, to: nat, c: int)
    requires Session(flat, cd, max, arcs, K, L, lp, rp) && CharsMoved(flat, flat', C, co, sco) && SameSubs(cd, cd')
    requires IsParent(cd, max, co, sco) && Real(cd, max, co) && Real(cd, max, sco) && 0 <= c < |flat| && Coloring(kind)
    ensures LetsRight(flat', cd', max, arcs + {Arc(Plain, sco, lp, rp)}, K, L + C, lp, rp, kind, from, to, c)
  {
    var arcs' := arcs + {Arc(Plain, sco, lp, rp)};
    forall p, s | true ensures IsParent(cd', max, p, s) == IsParent(cd, max, p, s) {
    }
    assert LetsRight(flat, cd, max, arcs, K, L, lp, rp, kind, from, to, c);
    assert Open(cd, max, sco) by { assert GoodColor(flat, cd, max, co); }
    if c in C {
      forall p | IsParent(cd, max, p, sco) ensures p == co { assert OneParent(cd, max, sco, p, co); }
      forall p | true ensures !IsParent(cd, max, p, co) { assert GoodColor(flat, cd, max, p); }
      assert Lets(flat', cd', max, arcs', kind, from, to, c) <==> Arc(kind, sco, from, to) in arcs' || Arc(kind, co, from, to) in arcs;
      assert Lets(flat, cd, max, arcs, kind, from, to, c) <==> Arc(kind, co, from, to) in arcs;
    } else {
      assert OpenListed(flat, cd, max, L, c);
      assert forall p :: IsParent(cd, max, p, flat[c]) ==> p != sco;
      assert Lets(flat', cd', max, arcs', kind, from, to, c) <==>
               Lets(flat, cd, max, arcs, kind, from, to, c) || (Arc(kind, flat[c], from, to) == Arc(Plain, sco, lp, rp));
    }
  }

  /** Characters already in an open subcolour, or alone in theirs: an arc is all they need. */
  lemma SessionStay(flat: seq<int>, cd: seq<Desc>, max: nat, C: set<int>, co: nat,
                    arcs: set<Arc>, K: Start, L: set<int>, lp: nat, rp: nat)
    requires Session(flat, cd, max, arcs, K, L, lp, rp) && C <= CharsOf(flat, co) && Real(cd, max, co)
    requires Open(cd, max, co) || (cd[co].sub == NOSUB && C == CharsOf(flat, co))
    ensures Session(flat, cd, max, arcs + {Arc(Plain, co, lp, rp)}, K, L + C, lp, rp)
  {
    var arcs', L' := arcs + {Arc(Plain, co, lp, rp)}, L + C;
    forall kind, from, to, c | true ensures LetsRight(flat, cd, max, arcs', K, L', lp, rp, kind, from, to, c) {
      assert LetsRight(flat, cd, max, arcs, K, L, lp, rp, kind, from, to, c);
      assert OpenListed(flat, cd, max, L, c);
      if 0 <= c < |flat| && Coloring(kind) {
        assert forall p :: IsParent(cd, max, p, flat[c]) ==> p != co;
        assert flat[c] == co ==> c in CharsOf(flat, co);
        assert Lets(flat, cd, max, arcs', kind, from, to, c) <==>
                 Lets(flat, cd, max, arcs, kind, from, to, c) || (Arc(kind, flat[c], from, to) == Arc(Plain, co, lp, rp));
      }
    }
    forall c | true ensures OpenListed(flat, cd, max, L', c) { assert OpenListed(flat, cd, max, L, c); }
  }

  /** Characters `C` of colour `co`, moved to a subcolour or, if they are as good as in
      one, left where they are. */
  lemma SessionTake(flat: seq<int>, flat': seq<int>, cd: seq<Desc>, max: nat, C: set<int>, co: nat, sco: nat,
                    arcs: set<Arc>, K: Start, L: set<int>, lp: nat, rp: nat)
    requires Session(flat, cd, max, arcs, K, L, lp, rp) && CharsMoved(flat, flat', C, co, sco) && C != {}
    requires Real(cd, max, co) && Used(cd, max, sco)
    requires if sco == co then Open(cd, max, co) || (cd[co].sub == NOSUB && cd[co].nchrs == 1)
             else IsParent(cd, max, co, sco) && Real(cd, max, sco)
    ensures Session(flat', Recounted(cd, co, sco, |C|), max, arcs + {Arc(Plain, sco, lp, rp)}, K, L + C, lp, rp)
  {
    if co == sco {
      assert flat' == flat && Recounted(cd, co, sco, |C|) == cd;
      Alone(flat, cd, max, co, C);
      SessionStay(flat, cd, max, C, co, arcs, K, L, lp, rp);
    } else {
      SessionMove(flat, flat', cd, max, C, co, sco, arcs, K, L, lp, rp);
    }
  }

  /** Characters `C` of a colour with only one character are that one. */
  lemma Alone(flat: seq<int>, cd: seq<Desc>, max: nat, co: nat, C: set<int>)
    requires Tallied(flat, cd, max) && Real(cd, max, co) && C != {} && C <= CharsOf(flat, co)
    ensures cd[co].nchrs == 1 ==> C == CharsOf(flat, co)
  {
    assert GoodColor(flat, cd, max, co);
    if cd[co].nchrs == 1 {
      var c :| c in C;
      assert CharsOf(flat, co) == {c} + (CharsOf(flat, co) - {c});
      assert |CharsOf(flat, co) - {c}| == 0;
    }
  }

  // ----- closing a subcolour

  /** Neither the parent nor the subcolour has an open subcolour any more. */
  function ClosedPair(cd: seq<Desc>, p: nat, s: nat): (r: seq<Desc>)
    requires p < |cd| && s < |cd|
    ensures |r| == |cd|
  {
    var cd1 := cd[p := cd[p].(sub := NOSUB)];
    cd1[s := cd1[s].(sub := NOSUB)]
  }

  lemma ClosedEntry(cd: seq<Desc>, p: nat, s: nat, k: nat)
    requires p < |cd| && s < |cd| && k < |cd|
    ensures ClosedPair(cd, p, s)[k] == if k == p || k == s then cd[k].(sub := NOSUB) else cd[k]
  {
  }

  lemma ClosedTallied(flat: seq<int>, cd: seq<Desc>, max: nat, p: nat, s: nat)
    requires Tallied(flat, cd, max) && IsParent(cd, max, p, s) && Open(cd, max, s)
    ensures Tallied(flat, ClosedPair(cd, p, s), max)
    ensures forall q, k :: IsParent(ClosedPair(cd, p, s), max, q, k) <==> IsParent(cd, max, q, k) && q != p
    ensures forall k :: Used(ClosedPair(cd, p, s), max, k) <==> Used(cd, max, k)
    ensures forall k :: Open(ClosedPair(cd, p, s), max, k) <==> Open(cd, max, k) && k != s
  {
    var cd' := ClosedPair(cd, p, s);
    forall k | true ensures Used(cd', max, k) <==> Used(cd, max, k) {
      if 0 <= k < |cd| { ClosedEntry(cd, p, s, k); }
    }
    forall k | true ensures Open(cd', max, k) <==> Open(cd, max, k) && k != s {
      if 0 <= k < |cd| { ClosedEntry(cd, p, s, k); }
    }
    forall q, k | true ensures IsParent(cd', max, q, k) <==> IsParent(cd, max, q, k) && q != p {
      if 0 <= q < |cd| { ClosedEntry(cd, p, s, q); }
    }
    forall c | 0 <= c < |flat| ensures Real(cd', max, flat[c]) { ClosedEntry(cd, p, s, flat[c]); }
    forall k | true ensures GoodColor(flat, cd', max, k) {
      assert GoodColor(flat, cd, max, k);
      if Used(cd, max, k) {
        ClosedEntry(cd, p, s, k);
        if k != p && k != s && cd[k].sub != NOSUB {
          assert OneParent(cd, max, s, p, k);
          ClosedEntry(cd, p, s, cd[k].sub);
        }
      }
    }
    forall k | true ensures Parented(cd', max, k) {
      assert Parented(cd, max, k);
      if Open(cd', max, k) {
        var q :| IsParent(cd, max, q, k);
        assert IsParent(cd', max, q, k);
      }
    }
    forall k, q, r | true ensures OneParent(cd', max, k, q, r) { assert OneParent(cd, max, k, q, r); }
    ClosedEntry(cd, p, s, WHITE);
  }

  /** The coloured arcs of colour `p`. */
  function ColorArcsOf(arcs: set<Arc>, p: int): set<Arc> { set a | a in arcs && (a.kind == Plain || a.kind == Ahead || a.kind == Behind) && a.co == p }

  function Recolored(arcs: set<Arc>, p: int, s: int): set<Arc> { set a | a in ColorArcsOf(arcs, p) :: a.(co := s) }

  /** Closing a pair: the parent's arcs gain parallel subcolour arcs, or if the parent has
      no characters left become subcolour arcs. Nothing changes in what is let through. */
  lemma SessionClose(flat: seq<int>, cd: seq<Desc>, max: nat, p: nat, s: nat, arcs: set<Arc>, arcs': set<Arc>,
                     K: Start, L: set<int>, lp: nat, rp: nat)
    requires Session(flat, cd, max, arcs, K, L, lp, rp) && IsParent(cd, max, p, s) && Open(cd, max, s)
    requires || arcs' == arcs + Recolored(arcs, p, s)
             || (arcs' == arcs - ColorArcsOf(arcs, p) + Recolored(arcs, p, s) && CharsOf(flat, p) == {})
    ensures Session(flat, ClosedPair(cd, p, s), max, arcs', K, L, lp, rp)
  {
    var cd' := ClosedPair(cd, p, s);
    ClosedTallied(flat, cd, max, p, s);
    forall kind, from, to, c | true ensures LetsRight(flat, cd', max, arcs', K, L, lp, rp, kind, from, to, c) {
      assert LetsRight(flat, cd, max, arcs, K, L, lp, rp, kind, from, to, c);
      if 0 <= c < |flat| && Coloring(kind) {
        CloseLets(flat, cd, max, p, s, arcs, arcs', kind, from, to, c);
      }
    }
    forall c | true ensures OpenListed(flat, cd', max, L, c) { assert OpenListed(flat, cd, max, L, c); }
  }

  lemma CloseLets(flat: seq<int>, cd: seq<Desc>, max: nat, p: nat, s: nat, arcs: set<Arc>, arcs': set<Arc>, kind: Kind, from: nat, to: nat, c: int)
    requires Tallied(flat, cd, max) && IsParent(cd, max, p, s) && Open(cd, max, s) && 0 <= c < |flat| && Coloring(kind)
    requires || arcs' == arcs + Recolored(arcs, p, s)
             || (arcs' == arcs - ColorArcsOf(arcs, p) + Recolored(arcs, p, s) && CharsOf(flat, p) == {})
    ensures Lets(flat, ClosedPair(cd, p, s), max, arcs', kind, from, to, c) <==> Lets(flat, cd, max, arcs, kind, from, to, c)
  {
    var cd', k := ClosedPair(cd, p, s), flat[c];
    ClosedTallied(flat, cd, max, p, s);
    assert k == p ==> c in CharsOf(flat, p);
    forall q | IsParent(cd, max, q, s) ensures q == p { assert OneParent(cd, max, s, q, p); }
    forall co | co != s && co != p ensures Arc(kind, co, from, to) in arcs' <==> Arc(kind, co, from, to) in arcs {
    }
    assert Arc(kind, s, from, to) in arcs' <==> Arc(kind, s, from, to) in arcs || Arc(kind, p, from, to) in arcs by {
      var a := Arc(kind, p, from, to);
      if a in arcs { assert a in ColorArcsOf(arcs, p) && a.(co := s) in Recolored(arcs, p, s); }
    }
    if k == s {
      assert Lets(flat, cd, max, arcs, kind, from, to, c) <==> Arc(kind, s, from, to) in arcs || Arc(kind, p, from, to) in arcs;
      assert forall q :: !IsParent(cd', max, q, s);
    } else {
      assert forall q :: IsParent(cd, max, q, k) ==> q != p && q != s;
      assert forall q :: IsParent(cd', max, q, k) <==> IsParent(cd, max, q, k);
      assert Arc(kind, k, from, to) in arcs' <==> Arc(kind, k, from, to) in arcs;
    }
  }

  // ----- freeing a colour

  /** `p` is taken out of use; the highest colour in use may drop. */
  ghost predicate Freed(cd: seq<Desc>, max: nat, cd': seq<Desc>, max': nat, p: nat) {
    && |cd'| == |cd| && max' <= max && !Used(cd', max', p)
    && (forall k :: k != p && Used(cd, max, k) ==> k <= max' && cd'[k] == cd[k])
    && (forall k :: Used(cd', max', k) ==> Used(cd, max, k))
  }

  lemma SessionFree(flat: seq<int>, cd: seq<Desc>, max: nat, cd': seq<Desc>, max': nat, p: nat, arcs: set<Arc>,
                    K: Start, L: set<int>, lp: nat, rp: nat)
    requires Session(flat, cd, max, arcs, K, L, lp, rp) && Freed(cd, max, cd', max', p) && max' < |cd'|
    requires p != WHITE && Used(cd, max, p) && cd[p].sub == NOSUB && CharsOf(flat, p) == {} && ColorArcsOf(arcs, p) == {}
    ensures Session(flat, cd', max', arcs, K, L, lp, rp)
  {
    forall k | true ensures Used(cd', max', k) <==> Used(cd, max, k) && k != p {
    }
    forall k | true ensures cd[p].sub == NOSUB && !IsParent(cd, max, k, p) { assert GoodColor(flat, cd, max, k); }
    forall q, k | true ensures IsParent(cd', max', q, k) <==> IsParent(cd, max, q, k) {
    }
    forall k | true ensures Open(cd', max', k) <==> Open(cd, max, k) {
    }
    forall c | 0 <= c < |flat| ensures Real(cd', max', flat[c]) { assert flat[c] == p ==> c in CharsOf(flat, p); }
    forall k | true ensures GoodColor(flat, cd', max', k) { assert GoodColor(flat, cd, max, k); }
    forall k | true ensures Parented(cd', max', k) { assert Parented(cd, max, k); }
    forall k, q, r | true ensures OneParent(cd', max', k, q, r) { assert OneParent(cd, max, k, q, r); }
    forall a | a in arcs && Colored(a) ensures Used(cd', max', a.co) { assert a.co == p ==> a in ColorArcsOf(arcs, p); }
    forall kind, from, to, c | true ensures LetsRight(flat, cd', max', arcs, K, L, lp, rp, kind, from, to, c) {
      assert LetsRight(flat, cd, max, arcs, K, L, lp, rp, kind, from, to, c);
    }
    forall c | true ensures OpenListed(flat, cd', max', L, c) { assert OpenListed(flat, cd, max, L, c); }
  }

  /** Blocks do not matter. */
  lemma SessionBlocks(flat: seq<int>, cd: seq<Desc>, max: nat, cd': seq<Desc>, arcs: set<Arc>, K: Start, L: set<int>, lp: nat, rp: nat)
    requires Session(flat, cd, max, arcs, K, L, lp, rp) && |cd'| == |cd|
    requires forall k :: 0 <= k < |cd| ==> cd'[k] == cd[k].(block := cd'[k].block)
    ensures Session(flat, cd', max, arcs, K, L, lp, rp)
  {
    forall k | true ensures Used(cd', max, k) == Used(cd, max, k) && Open(cd', max, k) == Open(cd, max, k) {
    }
    forall k | true ensures GoodColor(flat, cd', max, k) { assert GoodColor(flat, cd, max, k); }
    forall p, s | true ensures IsParent(cd', max, p, s) == IsParent(cd, max, p, s) {
    }
    forall k | true ensures Parented(cd', max, k) { assert Parented(cd, max, k); }
    forall k, q, r | true ensures OneParent(cd', max, k, q, r) { assert OneParent(cd, max, k, q, r); }
    forall kind, from, to, c | true ensures LetsRight(flat, cd', max, arcs, K, L, lp, rp, kind, from, to, c) {
      assert LetsRight(flat, cd, max, arcs, K, L, lp, rp, kind, from, to, c);
    }
    forall c | true ensures OpenListed(flat, cd', max, L, c) { assert OpenListed(flat, cd, max, L, c); }
  }
}

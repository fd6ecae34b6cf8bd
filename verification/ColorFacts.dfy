/** Colours as numbers: what descriptors say about a flat map from characters to colours,
    and what a coloured arc stands for while subcolours are open. */
module ColorFacts {
  import opened Automaton

  const BYTTAB := 256
  const CHRS := BYTTAB * BYTTAB
  const WHITE := 0
  const NOSUB := -1

  /** `sub` is the open subcolour, the colour itself if it is one, or for a free entry
      the next on the free chain. `block` is the block of solid colour, if any. */
  datatype Desc = Desc(nchrs: int, sub: int, unused: bool, pseudo: bool, block: array?<int>)

  ghost predicate Used(cd: seq<Desc>, max: nat, k: int) { 0 <= k <= max && k < |cd| && !cd[k].unused }

  ghost predicate Real(cd: seq<Desc>, max: nat, k: int) { Used(cd, max, k) && !cd[k].pseudo }

  /** An open subcolour. */
  ghost predicate Open(cd: seq<Desc>, max: nat, k: int) { Used(cd, max, k) && cd[k].sub == k }

  ghost predicate NoneOpen(cd: seq<Desc>, max: nat) { forall k :: Used(cd, max, k) ==> cd[k].sub == NOSUB }

  ghost function CharsOf(flat: seq<int>, k: int): set<int> { set c | 0 <= c < |flat| && flat[c] == k }

  /** The count is right, and the subcolour, if any, is open. */
  ghost predicate GoodColor(flat: seq<int>, cd: seq<Desc>, max: nat, k: int) {
    Used(cd, max, k) ==>
      && cd[k].nchrs == (if cd[k].pseudo then 1 else |CharsOf(flat, k)|)
      && (cd[k].pseudo ==> cd[k].sub == NOSUB && CharsOf(flat, k) == {})
      && (cd[k].sub == NOSUB || (Real(cd, max, cd[k].sub) && Open(cd, max, cd[k].sub)))
  }

  ghost predicate IsParent(cd: seq<Desc>, max: nat, p: int, s: int) { Used(cd, max, p) && p != s && s != NOSUB && cd[p].sub == s }

  /** An open subcolour has a parent. */
  ghost predicate Parented(cd: seq<Desc>, max: nat, s: int) { Open(cd, max, s) ==> exists p :: IsParent(cd, max, p, s) }

  /** It has only one. */
  ghost predicate OneParent(cd: seq<Desc>, max: nat, s: int, p: int, q: int) {
    IsParent(cd, max, p, s) && IsParent(cd, max, q, s) ==> p == q
  }

  /** What holds of the map and the descriptors whenever no operation is under way. */
  ghost predicate Tallied(flat: seq<int>, cd: seq<Desc>, max: nat) {
    && max < |cd| && |flat| == CHRS && Real(cd, max, WHITE)
    && (forall c :: 0 <= c < |flat| ==> Real(cd, max, flat[c]))
    && (forall k :: GoodColor(flat, cd, max, k))
    && (forall s :: Parented(cd, max, s))
    && (forall s, p, q :: OneParent(cd, max, s, p, q))
  }

  // ----- what coloured arcs stand for

  ghost predicate Colored(a: Arc) { a.kind == Plain || a.kind == Ahead || a.kind == Behind }

  /** The arcs let character `c` through, from one state to another: one has its colour,
      or the colour that its colour is an open subcolour of. */
  ghost predicate Lets(flat: seq<int>, cd: seq<Desc>, max: nat, arcs: set<Arc>, kind: Kind, from: nat, to: nat, c: int)
    requires 0 <= c < |flat|
  {
    || Arc(kind, flat[c], from, to) in arcs
    || exists p :: IsParent(cd, max, p, flat[c]) && Arc(kind, p, from, to) in arcs
  }

  /** All coloured arcs have colours in use. */
  ghost predicate ArcsUsed(cd: seq<Desc>, max: nat, arcs: set<Arc>) {
    forall a :: a in arcs && Colored(a) ==> Used(cd, max, a.co)
  }

  // ----- counting

  predicate Between(lo: int, c: int, hi: int) { lo <= c < hi }

  function Interval(lo: int, hi: int): set<int> { set c | lo <= c < hi && Between(lo, c, hi) }

  lemma {:induction false} IntervalSize(lo: int, hi: int)
    requires lo <= hi
    ensures |Interval(lo, hi)| == hi - lo
    decreases hi - lo
  {
    if lo < hi {
      IntervalSize(lo, hi - 1);
      assert Interval(lo, hi) == Interval(lo, hi - 1) + {hi - 1};
    } else {
      assert Interval(lo, hi) == {};
    }
  }

  // ----- moving characters from a colour to its subcolour

  /** `flat'` has the characters of `C`, all of colour `co`, moved to `sco`. */
  ghost predicate CharsMoved(flat: seq<int>, flat': seq<int>, C: set<int>, co: int, sco: int) {
    && |flat'| == |flat| && (forall c :: c in C ==> 0 <= c < |flat| && flat[c] == co)
    && forall c :: 0 <= c < |flat| ==> flat'[c] == if c in C then sco else flat[c]
  }

  /** One character more of a run. */
  lemma RunOn(flat: seq<int>, flat': seq<int>, lo: int, hi: int, co: int, sco: int)
    requires 0 <= lo <= hi < |flat| && CharsMoved(flat, flat', Interval(lo, hi), co, sco) && flat'[hi] == co
    ensures CharsMoved(flat, flat'[hi := sco], Interval(lo, hi + 1), co, sco)
  {
    assert Interval(lo, hi + 1) == Interval(lo, hi) + {hi};
  }

  /** The descriptors after `n` characters have been counted from `co` to `sco`. */
  function Recounted(cd: seq<Desc>, co: nat, sco: nat, n: int): (r: seq<Desc>)
    requires co < |cd| && sco < |cd|
    ensures |r| == |cd|
  {
    var cd1 := cd[co := cd[co].(nchrs := cd[co].nchrs - n)];
    cd1[sco := cd1[sco].(nchrs := cd1[sco].nchrs + n)]
  }

  lemma RecountedEntry(cd: seq<Desc>, co: nat, sco: nat, n: int, k: nat)
    requires co < |cd| && sco < |cd| && k < |cd|
    ensures Recounted(cd, co, sco, n)[k] == cd[k].(nchrs := cd[k].nchrs + (if k == sco then n else 0) - (if k == co then n else 0))
  {
  }

  lemma MoveKeepsTally(flat: seq<int>, flat': seq<int>, cd: seq<Desc>, max: nat, C: set<int>, co: nat, sco: nat)
    requires Tallied(flat, cd, max) && CharsMoved(flat, flat', C, co, sco)
    requires Real(cd, max, co) && Real(cd, max, sco)
    ensures Tallied(flat', Recounted(cd, co, sco, |C|), max)
  {
    var cd' := Recounted(cd, co, sco, |C|);
    forall k | true ensures Used(cd', max, k) == Used(cd, max, k) && Real(cd', max, k) == Real(cd, max, k) && Open(cd', max, k) == Open(cd, max, k) {
      if 0 <= k < |cd| { RecountedEntry(cd, co, sco, |C|, k); }
    }
    forall k | true ensures GoodColor(flat', cd', max, k) {
      assert GoodColor(flat, cd, max, k);
      if Used(cd, max, k) {
        RecountedEntry(cd, co, sco, |C|, k);
        MovedCount(flat, flat', C, co, sco, k);
      }
    }
    forall p, s | true ensures IsParent(cd', max, p, s) == IsParent(cd, max, p, s) {
      if 0 <= p < |cd| { RecountedEntry(cd, co, sco, |C|, p); }
    }
    forall s | true ensures Parented(cd', max, s) { assert Parented(cd, max, s); }
    forall s, p, q | true ensures OneParent(cd', max, s, p, q) { assert OneParent(cd, max, s, p, q); }
  }

  lemma MovedCount(flat: seq<int>, flat': seq<int>, C: set<int>, co: int, sco: int, k: int)
    requires CharsMoved(flat, flat', C, co, sco)
    ensures |CharsOf(flat', k)| == |CharsOf(flat, k)| + (if k == sco then |C| else 0) - (if k == co then |C| else 0)
    ensures k != co && k != sco ==> CharsOf(flat', k) == CharsOf(flat, k)
  {
    if co == sco {
      assert CharsOf(flat', k) == CharsOf(flat, k);
    } else if k == sco {
      assert CharsOf(flat', k) == CharsOf(flat, k) + C;
    } else if k == co {
      assert CharsOf(flat, k) == CharsOf(flat', k) + C;
    } else {
      assert CharsOf(flat', k) == CharsOf(flat, k);
    }
  }

  // ----- opening a subcolour

  /** `sco` is taken into use as an open subcolour of `co`. */
  ghost predicate Opened(cd: seq<Desc>, max: nat, cd': seq<Desc>, max': nat, co: nat, sco: nat) {
    && max < |cd| <= |cd'| && max' < |cd'| && max <= max' <= max + 1 && (max < max' ==> sco == max')
    && co <= max && sco <= max' && co != sco
    && cd'[sco] == Desc(0, sco, false, false, null) && !Used(cd, max, sco)
    && cd'[co] == cd[co].(sub := sco)
    && (forall k :: 0 <= k <= max && k != co && k != sco ==> cd'[k].unused == cd[k].unused && (!cd[k].unused ==> cd'[k] == cd[k]))
  }

  lemma OpenedEntry(cd: seq<Desc>, max: nat, cd': seq<Desc>, max': nat, co: nat, sco: nat, k: int)
    requires Opened(cd, max, cd', max', co, sco) && Used(cd, max, co)
    ensures Used(cd', max', k) <==> Used(cd, max, k) || k == sco
    ensures Used(cd, max, k) && k != co ==> cd'[k] == cd[k]
  {
  }

  lemma OpenKeepsTally(flat: seq<int>, cd: seq<Desc>, max: nat, cd': seq<Desc>, max': nat, co: nat, sco: nat)
    requires Tallied(flat, cd, max) && Opened(cd, max, cd', max', co, sco) && Real(cd, max, co) && cd[co].sub == NOSUB
    ensures Tallied(flat, cd', max')
  {
    OpenedEntry(cd, max, cd', max', co, sco, WHITE);
    forall c | 0 <= c < |flat| ensures Real(cd', max', flat[c]) {
      OpenedEntry(cd, max, cd', max', co, sco, flat[c]);
    }
    assert CharsOf(flat, sco) == {};
    forall k | true ensures GoodColor(flat, cd', max', k) {
      OpenedEntry(cd, max, cd', max', co, sco, k);
      assert GoodColor(flat, cd, max, k);
      if Used(cd, max, k) && cd[k].sub != NOSUB {
        OpenedEntry(cd, max, cd', max', co, sco, cd[k].sub);
      }
    }
    ParentsAfterOpening(flat, cd, max, cd', max', co, sco);
  }

  lemma ParentsAfterOpening(flat: seq<int>, cd: seq<Desc>, max: nat, cd': seq<Desc>, max': nat, co: nat, sco: nat)
    requires Tallied(flat, cd, max) && Opened(cd, max, cd', max', co, sco) && Real(cd, max, co) && cd[co].sub == NOSUB
    ensures forall p, s :: IsParent(cd', max', p, s) <==> IsParent(cd, max, p, s) || (p == co && s == sco)
    ensures (forall s :: Parented(cd', max', s)) && forall s, p, q :: OneParent(cd', max', s, p, q)
  {
    forall p, s | true ensures IsParent(cd', max', p, s) <==> IsParent(cd, max, p, s) || (p == co && s == sco) {
      OpenedEntry(cd, max, cd', max', co, sco, p);
      assert GoodColor(flat, cd, max, p);
    }
    forall s | true ensures Parented(cd', max', s) {
      OpenedEntry(cd, max, cd', max', co, sco, s);
      assert Parented(cd, max, s);
      if s == sco { assert IsParent(cd', max', co, sco); }
    }
    forall s, p, q | true ensures OneParent(cd', max', s, p, q) {
      assert OneParent(cd, max, s, p, q) && GoodColor(flat, cd, max, p) && GoodColor(flat, cd, max, q);
    }
  }

  // ----- the counts together

  /** The counts of the full colours below `n`. */
  function Counts(cd: seq<Desc>, n: nat): int
    requires n <= |cd|
  {
    if n == 0 then 0 else Counts(cd, n - 1) + if cd[n - 1].unused || cd[n - 1].pseudo then 0 else cd[n - 1].nchrs
  }

  ghost function CharsBelow(flat: seq<int>, n: int): set<int> { set c | 0 <= c < |flat| && 0 <= flat[c] < n }

  lemma {:induction false} CountsSoFar(flat: seq<int>, cd: seq<Desc>, max: nat, n: nat)
    requires Tallied(flat, cd, max) && n <= max + 1
    ensures Counts(cd, n) == |CharsBelow(flat, n)|
  {
    if n == 0 {
      assert CharsBelow(flat, 0) == {};
    } else {
      CountsSoFar(flat, cd, max, n - 1);
      assert CharsBelow(flat, n) == CharsBelow(flat, n - 1) + CharsOf(flat, n - 1);
      assert CharsBelow(flat, n - 1) !! CharsOf(flat, n - 1);
      assert GoodColor(flat, cd, max, n - 1);
      if !Real(cd, max, n - 1) {
        assert CharsOf(flat, n - 1) == {};
      }
    }
  }

  /** The counts of all full colours add up to the number of characters. */
  lemma CountsAddUp(flat: seq<int>, cd: seq<Desc>, max: nat)
    requires Tallied(flat, cd, max)
    ensures Counts(cd, max + 1) == CHRS
  {
    CountsSoFar(flat, cd, max, max + 1);
    IntervalSize(0, CHRS);
    forall c | 0 <= c < |flat| ensures 0 <= flat[c] < max + 1 {
      assert Real(cd, max, flat[c]);
    }
    assert CharsBelow(flat, max + 1) == Interval(0, CHRS);
  }
}

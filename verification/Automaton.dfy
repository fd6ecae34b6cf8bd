/** Arcs, and what it means for a set of arcs to accept an extended word.

    An extended word is the symbol before a match, the colours of the matched
    characters, and the symbol after the match. A symbol is a colour; the string
    ends have pseudocolours of their own (bos, eos). */
module Automaton {

  /** The arc types of the NFA: PLAIN, EMPTY, '^', '$', BEHIND, AHEAD, LACON. */
  datatype Kind = Plain | Empty | Begin | End | Behind | Ahead | Lacon

  /** `co` is a colour (Plain, Behind, Ahead), 0 or 1 (Begin, End) or the number
      of a lookahead constraint (Lacon). */
  datatype Arc = Arc(kind: Kind, co: int, from: nat, to: nat)

  /** What is fixed while a word is read: the two end states, the pseudocolours,
      and an arbitrary meaning for lookahead constraints: constraint c holds
      after i symbols iff `holds(c, off + i)`. */
  datatype Frame = Frame(pre: nat, post: nat, bos0: int, bos1: int, eos0: int, eos1: int,
                         holds: (int, int) -> bool, off: int)
  {
    function Bos(c: int): int { if c == 0 then bos0 else bos1 }

    function Eos(c: int): int { if c == 0 then eos0 else eos1 }

    /** A colour of real characters rather than one of the four pseudocolours. */
    predicate Real(c: int) { c != bos0 && c != bos1 && c != eos0 && c != eos1 }

    predicate Distinct() {
      bos0 != bos1 && bos0 != eos0 && bos0 != eos1 && bos1 != eos0 && bos1 != eos1 && eos0 != eos1 && pre != post
    }
  }

  /** Whether arc `a` may be followed after `i` symbols of `w`. A '^' arc out of
      pre consumes the bos symbol; elsewhere it tests the last consumed symbol.
      A '$' arc tests the next symbol, and consumes it on entering post. */
  ghost predicate Can(x: Frame, a: Arc, w: seq<int>, i: int)
    requires 0 <= i <= |w|
  {
    match a.kind
    case Plain => i < |w| && w[i] == a.co
    case Empty => true
    case Begin => if a.from == x.pre then i < |w| && w[i] == x.Bos(a.co) else i > 0 && w[i-1] == x.Bos(a.co)
    case End => i < |w| && w[i] == x.Eos(a.co)
    case Behind => i > 0 && w[i-1] == a.co
    case Ahead => i < |w| && w[i] == a.co
    case Lacon => x.holds(a.co, x.off + i)
  }

  /** How many symbols following `a` consumes. */
  function Width(x: Frame, a: Arc): nat {
    if a.kind == Plain || (a.kind == Begin && a.from == x.pre) || (a.kind == End && a.to == x.post) then 1 else 0
  }

  /** `n` arcs of `A` lead from state `s` after `i` symbols of `w` to `t` after `j`. */
  ghost predicate Path(x: Frame, A: set<Arc>, w: seq<int>, s: nat, i: int, t: nat, j: int, n: nat)
    requires 0 <= i <= |w|
    decreases n
  {
    if n == 0 then s == t && i == j
    else exists a :: a in A && Goes(x, A, w, s, i, t, j, n, a)
  }

  /** The first of the `n` arcs is `a`. */
  ghost predicate Goes(x: Frame, A: set<Arc>, w: seq<int>, s: nat, i: int, t: nat, j: int, n: nat, a: Arc)
    requires 0 <= i <= |w| && n > 0
    decreases n, 0
  {
    a.from == s && Can(x, a, w, i) && Path(x, A, w, a.to, i + Width(x, a), t, j, n - 1)
  }

  ghost predicate Ends(x: Frame, A: set<Arc>, w: seq<int>, s: nat, i: int, n: nat)
    requires 0 <= i <= |w|
  {
    Path(x, A, w, s, i, x.post, |w|, n)
  }

  /** The arcs accept the extended word `w`. */
  ghost predicate Accepts(x: Frame, A: set<Arc>, w: seq<int>) {
    exists n: nat :: Ends(x, A, w, x.pre, 0, n)
  }

  /** `y` is the frame `x`, except perhaps for what the lookahead constraints mean and
      where the word starts. */
  ghost predicate Like(x: Frame, y: Frame) {
    && y.pre == x.pre && y.post == x.post
    && y.bos0 == x.bos0 && y.bos1 == x.bos1 && y.eos0 == x.eos0 && y.eos1 == x.eos1
  }

  /** The frame in which lookahead constraints mean `holds` and the word starts at `off`. */
  function Placed(x: Frame, holds: (int, int) -> bool, off: int): (y: Frame)
    ensures Like(x, y)
  {
    x.(holds := holds, off := off)
  }

  /** `A` and `B` accept the same words, whatever the lookahead constraints mean. */
  ghost predicate SameLanguage(x: Frame, A: set<Arc>, B: set<Arc>) {
    forall y: Frame, w | Like(x, y) :: Accepts(y, A, w) <==> Accepts(y, B, w)
  }

  lemma {:induction false} PathFirst(x: Frame, A: set<Arc>, w: seq<int>, s: nat, i: int, t: nat, j: int, n: nat) returns (a: Arc)
    requires 0 <= i <= |w| && n > 0
    requires Path(x, A, w, s, i, t, j, n)
    ensures a in A && Goes(x, A, w, s, i, t, j, n, a)
  {
    a :| a in A && Goes(x, A, w, s, i, t, j, n, a);
  }

  lemma PathCons(x: Frame, A: set<Arc>, w: seq<int>, a: Arc, i: int, t: nat, j: int, n: nat)
    requires 0 <= i <= |w| && a in A && Can(x, a, w, i)
    requires Path(x, A, w, a.to, i + Width(x, a), t, j, n)
    ensures Path(x, A, w, a.from, i, t, j, n + 1)
  {
    assert Goes(x, A, w, a.from, i, t, j, n + 1, a);
  }

  lemma {:induction false} PathGrow(x: Frame, A: set<Arc>, B: set<Arc>, w: seq<int>, s: nat, i: int, t: nat, j: int, n: nat)
    requires 0 <= i <= |w| && A <= B
    requires Path(x, A, w, s, i, t, j, n)
    ensures Path(x, B, w, s, i, t, j, n)
    decreases n
  {
    if n > 0 {
      var a := PathFirst(x, A, w, s, i, t, j, n);
      PathGrow(x, A, B, w, a.to, i + Width(x, a), t, j, n - 1);
      PathCons(x, B, w, a, i, t, j, n - 1);
    }
  }

  lemma AcceptsGrow(x: Frame, A: set<Arc>, B: set<Arc>, w: seq<int>)
    requires A <= B && Accepts(x, A, w)
    ensures Accepts(x, B, w)
  {
    var n: nat :| Ends(x, A, w, x.pre, 0, n);
    PathGrow(x, A, B, w, x.pre, 0, x.post, |w|, n);
    assert Ends(x, B, w, x.pre, 0, n);
  }

  lemma SameLanguageTransitive(x: Frame, A: set<Arc>, B: set<Arc>, C: set<Arc>)
    requires SameLanguage(x, A, B) && SameLanguage(x, B, C)
    ensures SameLanguage(x, A, C)
  {
  }
}

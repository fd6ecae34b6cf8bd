/** Regular expressions: how a string of tokens is read, and what is meant by it. */
module Grammar {
  import opened Automaton
  import opened Fragments

  /** What the lexer delivers. An atom (a character, a bracket expression, a dot) and a constraint
      stand for the labels of the arcs that they make. A closing parenthesis may have to be taken
      literally. A quantifier asks for `m` to `n`. */
  datatype Token = Atom(labels: set<Label>) | Constraint(labels: set<Label>) | Open | Close(labels: set<Label>) | Bar | Quant(m: int, n: int)

  /** REG_BADRPT, REG_BADBR and REG_EPAREN. */
  datatype Error = BadRepeat | BadBraces | Unbalanced

  datatype Re = OneOf(labels: set<Label>) | Nothing | InRow(first: Re, rest: Re) | Either(one: Re, other: Re) | Times(re: Re, m: int, n: int)

  datatype Parsed = Parsed(re: Re, next: nat) | Failed(error: Error)

  /** The words of an expression. */
  ghost function Words(re: Re): Language {
    match re
    case OneOf(labels) => iset x | x in labels :: [x]
    case Nothing => JustEmpty()
    case InRow(a, b) => Cat(Words(a), Words(b))
    case Either(a, b) => Words(a) + Words(b)
    case Times(a, m, n) => Reps(Words(a), m, n)
  }

  /** Atoms have arcs, which are not empty; numbers are in range. */
  predicate Lexed(ts: seq<Token>) {
    forall t :: t in ts ==>
      && (t.Atom? || t.Constraint? || t.Close? ==> t.labels != {} && forall x :: x in t.labels ==> x.0 != Empty)
      && (t.Quant? ==> 0 <= t.m <= DUPMAX && 0 <= t.n <= INFINITY)
  }

  /** A branch is over: at the end, at a bar, or at the parenthesis that closes a group. */
  predicate SeeStop(ts: seq<Token>, i: nat, inner: bool) { i >= |ts| || ts[i].Bar? || (inner && ts[i].Close?) }

  /** Branches, with bars between them. `inner` tells a group, `extended` that a closing
      parenthesis too many is taken literally. */
  function ReAt(ts: seq<Token>, i: nat, inner: bool, extended: bool): (r: Parsed)
    requires i <= |ts|
    ensures r.Parsed? ==> i <= r.next <= |ts| && (if inner then r.next < |ts| && ts[r.next].Close? else r.next == |ts|)
    decreases |ts| - i, 2
  {
    var b := BranchAt(ts, i, inner, extended);
    if b.Failed? then b
    else if b.next < |ts| && ts[b.next].Bar? then
      var r := ReAt(ts, b.next + 1, inner, extended);
      if r.Failed? then r else Parsed(Either(b.re, r.re), r.next)
    else if inner && b.next == |ts| then Failed(Unbalanced)
    else b
  }

  function BranchAt(ts: seq<Token>, i: nat, inner: bool, extended: bool): (r: Parsed)
    requires i <= |ts|
    ensures r.Parsed? ==> i <= r.next <= |ts| && SeeStop(ts, r.next, inner)
    decreases |ts| - i, 1
  {
    if SeeStop(ts, i, inner) then Parsed(Nothing, i)
    else
      var p := PieceAt(ts, i, inner, extended);
      if p.Failed? then p else
      var r := BranchAt(ts, p.next, inner, extended);
      if r.Failed? then r else Parsed(InRow(p.re, r.re), r.next)
  }

  /** A constraint, or an atom with its quantifier. */
  function PieceAt(ts: seq<Token>, i: nat, inner: bool, extended: bool): (r: Parsed)
    requires i < |ts| && !SeeStop(ts, i, inner)
    ensures r.Parsed? ==> i < r.next <= |ts|
    decreases |ts| - i, 0
  {
    match ts[i]
    case Constraint(labels) => Parsed(OneOf(labels), i + 1)
    case Quant(_, _) => Failed(BadRepeat)
    case Atom(labels) => Quantified(OneOf(labels), ts, i + 1)
    case Close(labels) => if extended then Quantified(OneOf(labels), ts, i + 1) else Failed(Unbalanced)
    case Open =>
      var r := ReAt(ts, i + 1, true, extended);
      if r.Failed? then r else Quantified(r.re, ts, r.next + 1)
  }

  function Quantified(re: Re, ts: seq<Token>, i: nat): (r: Parsed)
    requires i <= |ts|
    ensures r.Parsed? ==> i <= r.next <= |ts|
  {
    if i < |ts| && ts[i].Quant? then
      if ts[i].m > ts[i].n then Failed(BadBraces) else Parsed(Times(re, ts[i].m, ts[i].n), i + 1)
    else Parsed(re, i)
  }

  // ----- every expression can be written

  /** A closing parenthesis; taken literally it would be a character of some colour. */
  const PAREN := Close({(Plain, 0)})

  /** An expression written out, with parentheses around all parts. */
  function Spelled(re: Re): seq<Token>
    decreases re, 0
  {
    match re
    case OneOf(labels) => [Atom(labels)]
    case Nothing => []
    case InRow(a, b) => Grouped(a) + Grouped(b)
    case Either(a, b) => Grouped(a) + [Bar] + Grouped(b)
    case Times(a, m, n) => Grouped(a) + [Quant(m, n)]
  }

  function Grouped(re: Re): seq<Token>
    decreases re, 1
  {
    [Open] + Spelled(re) + [PAREN]
  }

  predicate InOrder(re: Re) {
    match re
    case OneOf(_) => true
    case Nothing => true
    case InRow(a, b) => InOrder(a) && InOrder(b)
    case Either(a, b) => InOrder(a) && InOrder(b)
    case Times(a, m, n) => m <= n && InOrder(a)
  }

  /** Where an expression may end. */
  predicate AtEnd(ts: seq<Token>, j: nat, inner: bool) { if inner then j < |ts| && ts[j].Close? else j == |ts| }

  /** The tokens from `i` to `j` are `q`. */
  predicate Holds(ts: seq<Token>, i: nat, j: nat, q: seq<Token>) { i <= j <= |ts| && ts[i..j] == q }

  lemma HoldsParts(ts: seq<Token>, i: nat, j: nat, p: seq<Token>, q: seq<Token>)
    requires Holds(ts, i, j, p + q)
    ensures Holds(ts, i, i + |p|, p) && Holds(ts, i + |p|, j, q)
  {
    assert ts[i..i + |p|] == ts[i..j][..|p|] && ts[i + |p|..j] == ts[i..j][|p|..];
  }

  lemma HoldsOne(ts: seq<Token>, i: nat, j: nat, t: Token)
    requires Holds(ts, i, j, [t])
    ensures j == i + 1 && ts[i] == t
  {
    assert ts[i..j][0] == t;
  }

  lemma HoldsAround(ts: seq<Token>, i: nat, j: nat, p: seq<Token>, t: Token, q: seq<Token>)
    requires Holds(ts, i, j, p + [t] + q)
    ensures var k := i + |p|; k < j && Holds(ts, i, k, p) && ts[k] == t && Holds(ts, k + 1, j, q)
  {
    assert p + [t] + q == p + ([t] + q);
    HoldsParts(ts, i, j, p, [t] + q);
    HoldsParts(ts, i + |p|, j, [t], q);
    HoldsOne(ts, i + |p|, i + |p| + 1, t);
  }

  /** One piece that ends where the branch does. */
  lemma LastInBranch(ts: seq<Token>, i: nat, inner: bool, extended: bool)
    requires i < |ts| && !SeeStop(ts, i, inner)
    requires var p := PieceAt(ts, i, inner, extended); p.Parsed? && SeeStop(ts, p.next, inner)
    ensures var p, b := PieceAt(ts, i, inner, extended), BranchAt(ts, i, inner, extended);
            b.Parsed? && b.next == p.next && Words(b.re) == Words(p.re)
  {
    var p := PieceAt(ts, i, inner, extended);
    assert BranchAt(ts, p.next, inner, extended) == Parsed(Nothing, p.next);
    CatEmpty(Words(p.re));
  }

  /** A group is read as one piece, whatever follows but a quantifier. */
  lemma {:induction false} GroupReadsBack(ts: seq<Token>, i: nat, j: nat, re: Re, inner: bool, extended: bool)
    requires Holds(ts, i, j, Grouped(re)) && InOrder(re) && (j < |ts| ==> !ts[j].Quant?)
    ensures !SeeStop(ts, i, inner)
    ensures var p := PieceAt(ts, i, inner, extended); p.Parsed? && p.next == j && Words(p.re) == Words(re)
    decreases re, 3
  {
    InsideReadsBack(ts, i, j, re, extended);
  }

  lemma {:induction false} InsideReadsBack(ts: seq<Token>, i: nat, j: nat, re: Re, extended: bool)
    requires Holds(ts, i, j, Grouped(re)) && InOrder(re)
    ensures i + 2 <= j && ts[i] == Open
    ensures var r := ReAt(ts, i + 1, true, extended); r.Parsed? && r.next + 1 == j && Words(r.re) == Words(re)
    decreases re, 2
  {
    assert Grouped(re) == [Open] + (Spelled(re) + [PAREN]);
    HoldsParts(ts, i, j, [Open], Spelled(re) + [PAREN]);
    HoldsOne(ts, i, i + 1, Open);
    HoldsParts(ts, i + 1, j, Spelled(re), [PAREN]);
    HoldsOne(ts, j - 1, j, PAREN);
    ReadsBack(ts, i + 1, j - 1, re, true, extended);
  }

  /** An expression that is written out is read as one with the same words. */
  lemma {:induction false} ReadsBack(ts: seq<Token>, i: nat, j: nat, re: Re, inner: bool, extended: bool)
    requires Holds(ts, i, j, Spelled(re)) && InOrder(re) && AtEnd(ts, j, inner)
    ensures var r := ReAt(ts, i, inner, extended); r.Parsed? && r.next == j && Words(r.re) == Words(re)
    decreases re, 1
  {
    match re
    case Nothing =>
    case OneOf(labels) =>
      HoldsOne(ts, i, j, Atom(labels));
      LastInBranch(ts, i, inner, extended);
      OnlyBranch(ts, i, inner, extended);
    case InRow(a, b) => RowReadsBack(ts, i, j, a, b, inner, extended);
    case Either(a, b) => ChoiceReadsBack(ts, i, j, a, b, inner, extended);
    case Times(a, m, n) => TimesReadsBack(ts, i, j, a, m, n, inner, extended);
  }

  lemma {:induction false} ChoiceReadsBack(ts: seq<Token>, i: nat, j: nat, a: Re, b: Re, inner: bool, extended: bool)
    requires Holds(ts, i, j, Grouped(a) + [Bar] + Grouped(b)) && InOrder(a) && InOrder(b) && AtEnd(ts, j, inner)
    ensures var r := ReAt(ts, i, inner, extended); r.Parsed? && r.next == j && Words(r.re) == Words(a) + Words(b)
    decreases Either(a, b), 0
  {
    var k := i + |Grouped(a)|;
    HoldsAround(ts, i, j, Grouped(a), Bar, Grouped(b));
    GroupReadsBack(ts, i, k, a, inner, extended);
    LastInBranch(ts, i, inner, extended);
    AloneReadsBack(ts, k + 1, j, b, inner, extended);
    BranchAndMore(ts, i, k, inner, extended);
  }

  lemma {:induction false} AloneReadsBack(ts: seq<Token>, i: nat, j: nat, re: Re, inner: bool, extended: bool)
    requires Holds(ts, i, j, Grouped(re)) && InOrder(re) && AtEnd(ts, j, inner)
    ensures var r := ReAt(ts, i, inner, extended); r.Parsed? && r.next == j && Words(r.re) == Words(re)
    decreases re, 4
  {
    GroupReadsBack(ts, i, j, re, inner, extended);
    LastInBranch(ts, i, inner, extended);
    OnlyBranch(ts, i, inner, extended);
  }

  lemma BranchAndMore(ts: seq<Token>, i: nat, k: nat, inner: bool, extended: bool)
    requires i <= k < |ts| && ts[k].Bar?
    requires var b := BranchAt(ts, i, inner, extended); b.Parsed? && b.next == k
    ensures var b, r := BranchAt(ts, i, inner, extended), ReAt(ts, k + 1, inner, extended);
            r.Parsed? ==> ReAt(ts, i, inner, extended) == Parsed(Either(b.re, r.re), r.next)
  {
  }

  /** A branch after which the expression ends. */
  lemma OnlyBranch(ts: seq<Token>, i: nat, inner: bool, extended: bool)
    requires i <= |ts|
    requires var b := BranchAt(ts, i, inner, extended); b.Parsed? && AtEnd(ts, b.next, inner)
    ensures ReAt(ts, i, inner, extended) == BranchAt(ts, i, inner, extended)
  {
  }

  lemma {:induction false} TimesReadsBack(ts: seq<Token>, i: nat, j: nat, a: Re, m: int, n: int, inner: bool, extended: bool)
    requires Holds(ts, i, j, Grouped(a) + [Quant(m, n)]) && InOrder(a) && m <= n && AtEnd(ts, j, inner)
    ensures var r := ReAt(ts, i, inner, extended); r.Parsed? && r.next == j && Words(r.re) == Reps(Words(a), m, n)
    decreases Times(a, m, n), 0
  {
    var k := i + |Grouped(a)|;
    HoldsParts(ts, i, j, Grouped(a), [Quant(m, n)]);
    HoldsOne(ts, k, j, Quant(m, n));
    InsideReadsBack(ts, i, k, a, extended);
    LastInBranch(ts, i, inner, extended);
    OnlyBranch(ts, i, inner, extended);
  }

  lemma {:induction false} RowReadsBack(ts: seq<Token>, i: nat, j: nat, a: Re, b: Re, inner: bool, extended: bool)
    requires Holds(ts, i, j, Grouped(a) + Grouped(b)) && InOrder(a) && InOrder(b) && AtEnd(ts, j, inner)
    ensures var r := ReAt(ts, i, inner, extended); r.Parsed? && r.next == j && Words(r.re) == Cat(Words(a), Words(b))
    decreases InRow(a, b), 0
  {
    var k := i + |Grouped(a)|;
    HoldsParts(ts, i, j, Grouped(a), Grouped(b));
    GroupReadsBack(ts, k, j, b, inner, extended);
    GroupReadsBack(ts, i, k, a, inner, extended);
    LastInBranch(ts, k, inner, extended);
    OnlyBranch(ts, i, inner, extended);
  }
}

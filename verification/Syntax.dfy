/** The grammar of regular expressions, as trees that token strings are the leaves of; and which
    strings are refused. */
module Syntax {
  import opened Automaton
  import opened Fragments
  import opened Grammar
  import opened Ways

  // ----- trees

  datatype Quantity = Once | Many(m: int, n: int)

  datatype Expr = Only(b: Branch) | Choice(b: Branch, others: Expr)

  datatype Branch = Over | Then(p: Piece, rest: Branch)

  /** A constraint, an atom, a parenthesis taken literally, a group. */
  datatype Piece = Fixed(labels: set<Label>) | Single(labels: set<Label>, q: Quantity)
                 | Literal(labels: set<Label>, q: Quantity) | Group(e: Expr, close: set<Label>, q: Quantity)

  /** The tokens of which an expression is made. */
  function OfExpr(e: Expr): seq<Token> {
    match e
    case Only(b) => OfBranch(b)
    case Choice(b, others) => OfBranch(b) + ([Bar] + OfExpr(others))
  }

  function OfBranch(b: Branch): seq<Token> {
    match b
    case Over => []
    case Then(p, rest) => OfPiece(p) + OfBranch(rest)
  }

  function OfPiece(p: Piece): (ts: seq<Token>)
    ensures ts != [] && !ts[0].Quant? && !ts[0].Bar? && (ts[0].Close? ==> p.Literal?)
  {
    match p
    case Fixed(labels) => [Constraint(labels)]
    case Single(labels, q) => [Atom(labels)] + OfQuantity(q)
    case Literal(labels, q) => [Close(labels)] + OfQuantity(q)
    case Group(e, close, q) => [Open] + (OfExpr(e) + ([Close(close)] + OfQuantity(q)))
  }

  function OfQuantity(q: Quantity): seq<Token> { if q.Once? then [] else [Quant(q.m, q.n)] }

  /** Bounds are in order, and parentheses are taken literally outside groups and in extended
      expressions only. */
  predicate LegalExpr(e: Expr, inner: bool, extended: bool) {
    match e
    case Only(b) => LegalBranch(b, inner, extended)
    case Choice(b, others) => LegalBranch(b, inner, extended) && LegalExpr(others, inner, extended)
  }

  predicate LegalBranch(b: Branch, inner: bool, extended: bool) {
    match b
    case Over => true
    case Then(p, rest) => LegalPiece(p, inner, extended) && LegalBranch(rest, inner, extended)
  }

  predicate LegalPiece(p: Piece, inner: bool, extended: bool) {
    match p
    case Fixed(_) => true
    case Single(_, q) => LegalQuantity(q)
    case Literal(_, q) => !inner && extended && LegalQuantity(q)
    case Group(e, _, q) => LegalExpr(e, true, extended) && LegalQuantity(q)
  }

  predicate LegalQuantity(q: Quantity) { q.Many? ==> q.m <= q.n }

  /** The words that an expression means. */
  ghost function ExprMeans(e: Expr): Language {
    match e
    case Only(b) => BranchMeans(b)
    case Choice(b, others) => BranchMeans(b) + ExprMeans(others)
  }

  ghost function BranchMeans(b: Branch): Language {
    match b
    case Over => iset{[]}
    case Then(p, rest) => iset v, w | v in PieceMeans(p) && w in BranchMeans(rest) :: v + w
  }

  ghost function PieceMeans(p: Piece): Language {
    match p
    case Fixed(labels) => iset x | x in labels :: [x]
    case Single(labels, q) => SoMany(iset x | x in labels :: [x], q)
    case Literal(labels, q) => SoMany(iset x | x in labels :: [x], q)
    case Group(e, _, q) => SoMany(ExprMeans(e), q)
  }

  /** So many words of `X` in a row. */
  ghost function SoMany(X: Language, q: Quantity): Language {
    match q
    case Once => X
    case Many(m, n) => iset ws: seq<seq<Label>> | m <= |ws| && (n == INFINITY || |ws| <= n) && (forall w :: w in ws ==> w in X) :: Flat(ws)
  }

  function Flat(ws: seq<seq<Label>>): seq<Label> { if ws == [] then [] else ws[0] + Flat(ws[1..]) }

  /** Whatever is repeated without bound, all its words read some character. */
  ghost predicate TameExpr(e: Expr) {
    match e
    case Only(b) => TameBranch(b)
    case Choice(b, others) => TameBranch(b) && TameExpr(others)
  }

  ghost predicate TameBranch(b: Branch) { b.Then? ==> TamePiece(b.p) && TameBranch(b.rest) }

  ghost predicate TamePiece(p: Piece) {
    match p
    case Fixed(_) => true
    case Single(labels, q) => TameQuantity(iset x | x in labels :: [x], q)
    case Literal(labels, q) => TameQuantity(iset x | x in labels :: [x], q)
    case Group(e, _, q) => TameExpr(e) && TameQuantity(ExprMeans(e), q)
  }

  ghost predicate TameQuantity(X: Language, q: Quantity) {
    q.Many? && q.n == INFINITY ==> forall l :: l in X ==> exists x :: x in l && x.0 == Plain
  }

  // ----- languages

  lemma CatIsPairs(X: Language, Y: Language)
    ensures Cat(X, Y) == iset v, w | v in X && w in Y :: v + w
  {
    var Z := iset v: seq<Label>, w: seq<Label> | v in X && w in Y :: v + w;
    forall l: seq<Label> ensures l in Cat(X, Y) <==> l in Z {
      if i :| 0 <= i <= |l| && l[..i] in X && l[i..] in Y { assert l == l[..i] + l[i..]; }
      if v, w :| v in X && w in Y && l == v + w { InCat(X, Y, v, w); }
    }
    Same(Cat(X, Y), Z);
  }

  /** `ws` are `k` words of `X`, and `l` is these in a row. */
  ghost predicate InARowOf(X: Language, ws: seq<seq<Label>>, k: int, l: seq<Label>) {
    |ws| == k && (forall w :: w in ws ==> w in X) && Flat(ws) == l
  }

  lemma {:induction false} PowerIsFlat(X: Language, k: nat, l: seq<Label>) returns (ws: seq<seq<Label>>)
    requires l in Power(X, k)
    ensures InARowOf(X, ws, k, l)
    decreases k
  {
    ws := [];
    if k > 0 {
      var i :| 0 <= i <= |l| && l[..i] in X && l[i..] in Power(X, k - 1);
      var more := PowerIsFlat(X, k - 1, l[i..]);
      ws := [l[..i]] + more;
      assert ws[1..] == more && l[..i] + l[i..] == l;
    }
  }

  lemma {:induction false} FlatIsPower(X: Language, ws: seq<seq<Label>>)
    requires forall w :: w in ws ==> w in X
    ensures Flat(ws) in Power(X, |ws|)
  {
    if ws != [] {
      FlatIsPower(X, ws[1..]);
      InCat(X, Power(X, |ws| - 1), ws[0], Flat(ws[1..]));
    }
  }

  /** Repetitions are words in a row, as many as allowed. */
  lemma RepsAreWordsInARow(X: Language, m: int, n: int)
    ensures Reps(X, m, n) == SoMany(X, Many(m, n))
  {
    forall l: seq<Label> ensures l in Reps(X, m, n) <==> l in SoMany(X, Many(m, n)) {
      if k: nat :| m <= k && (n == INFINITY || k <= n) && l in Power(X, k) {
        var ws := PowerIsFlat(X, k, l);
      }
      if ws: seq<seq<Label>> :| m <= |ws| && (n == INFINITY || |ws| <= n) && (forall w :: w in ws ==> w in X) && Flat(ws) == l {
        FlatIsPower(X, ws);
      }
    }
    Same(Reps(X, m, n), SoMany(X, Many(m, n)));
  }

  // ----- what is an expression is read as one

  lemma StartsPiece(ts: seq<Token>, i: nat, j: nat, p: Piece, inner: bool, extended: bool)
    requires Holds(ts, i, j, OfPiece(p)) && LegalPiece(p, inner, extended)
    ensures i < j && ts[i] == OfPiece(p)[0] && !ts[i].Quant? && !SeeStop(ts, i, inner)
  {
    assert ts[i..j][0] == ts[i];
  }

  /** A quantifier is read with what it applies to. */
  lemma QuantityReads(ts: seq<Token>, k: nat, j: nat, re: Re, X: Language, q: Quantity)
    requires Holds(ts, k, j, OfQuantity(q)) && LegalQuantity(q) && (j < |ts| ==> !ts[j].Quant?) && Words(re) == X
    ensures var r := Quantified(re, ts, k); r.Parsed? && r.next == j && Words(r.re) == SoMany(X, q) && (Tame(re) && TameQuantity(X, q) ==> Tame(r.re))
  {
    if q.Many? {
      HoldsOne(ts, k, j, Quant(q.m, q.n));
      RepsAreWordsInARow(X, q.m, q.n);
    }
  }

  lemma {:induction false} PieceReads(ts: seq<Token>, i: nat, j: nat, p: Piece, inner: bool, extended: bool)
    requires Holds(ts, i, j, OfPiece(p)) && LegalPiece(p, inner, extended) && (j < |ts| ==> !ts[j].Quant?)
    ensures i < j && !SeeStop(ts, i, inner)
    ensures var r := PieceAt(ts, i, inner, extended); r.Parsed? && r.next == j && Words(r.re) == PieceMeans(p) && (TamePiece(p) ==> Tame(r.re))
    decreases p, 1
  {
    StartsPiece(ts, i, j, p, inner, extended);
    match p
    case Fixed(labels) => HoldsOne(ts, i, j, Constraint(labels));
    case Single(labels, q) => AtomReads(ts, i, j, ts[i], labels, q);
    case Literal(labels, q) => AtomReads(ts, i, j, ts[i], labels, q);
    case Group(e, close, q) => GroupReads(ts, i, j, e, close, q, extended);
  }

  lemma AtomReads(ts: seq<Token>, i: nat, j: nat, t: Token, labels: set<Label>, q: Quantity)
    requires Holds(ts, i, j, [t] + OfQuantity(q)) && LegalQuantity(q) && (j < |ts| ==> !ts[j].Quant?)
    ensures i < |ts|
    ensures var r, X := Quantified(OneOf(labels), ts, i + 1), iset x | x in labels :: [x];
            r.Parsed? && r.next == j && Words(r.re) == SoMany(X, q) && (TameQuantity(X, q) ==> Tame(r.re))
  {
    HoldsParts(ts, i, j, [t], OfQuantity(q));
    QuantityReads(ts, i + 1, j, OneOf(labels), Words(OneOf(labels)), q);
  }

  lemma GroupAt(ts: seq<Token>, i: nat, extended: bool)
    requires i < |ts| && ts[i].Open? && ReAt(ts, i + 1, true, extended).Parsed?
    ensures var inside := ReAt(ts, i + 1, true, extended); PieceAt(ts, i, false, extended) == Quantified(inside.re, ts, inside.next + 1)
  {
  }

  lemma {:induction false} GroupReads(ts: seq<Token>, i: nat, j: nat, e: Expr, close: set<Label>, q: Quantity, extended: bool)
    requires Holds(ts, i, j, OfPiece(Group(e, close, q))) && (j < |ts| ==> !ts[j].Quant?) && i < |ts| && ts[i].Open?
    requires LegalExpr(e, true, extended) && LegalQuantity(q)
    ensures var r := PieceAt(ts, i, false, extended); r.Parsed? && r.next == j && Words(r.re) == SoMany(ExprMeans(e), q)
    ensures TameExpr(e) && TameQuantity(ExprMeans(e), q) ==> Tame(PieceAt(ts, i, false, extended).re)
    decreases e, 3
  {
    var k := GroupTokens(ts, i, j, e, close, q);
    ExprReads(ts, i + 1, k, e, true, extended);
    GroupAt(ts, i, extended);
    QuantityReads(ts, k + 1, j, ReAt(ts, i + 1, true, extended).re, ExprMeans(e), q);
  }

  lemma GroupTokens(ts: seq<Token>, i: nat, j: nat, e: Expr, close: set<Label>, q: Quantity) returns (k: nat)
    requires Holds(ts, i, j, OfPiece(Group(e, close, q)))
    ensures i + 1 <= k < j && Holds(ts, i + 1, k, OfExpr(e)) && ts[k] == Close(close) && Holds(ts, k + 1, j, OfQuantity(q))
  {
    k := i + 1 + |OfExpr(e)|;
    HoldsParts(ts, i, j, [Open], OfExpr(e) + ([Close(close)] + OfQuantity(q)));
    HoldsTwo(ts, i + 1, j, OfExpr(e), Close(close), OfQuantity(q));
  }

  lemma {:induction false} BranchReads(ts: seq<Token>, i: nat, j: nat, b: Branch, inner: bool, extended: bool)
    requires Holds(ts, i, j, OfBranch(b)) && LegalBranch(b, inner, extended) && SeeStop(ts, j, inner)
    ensures var r := BranchAt(ts, i, inner, extended); r.Parsed? && r.next == j && Words(r.re) == BranchMeans(b) && (TameBranch(b) ==> Tame(r.re))
    decreases b, 1
  {
    match b
    case Over =>
    case Then(p, rest) =>
      var k := i + |OfPiece(p)|;
      HoldsParts(ts, i, j, OfPiece(p), OfBranch(rest));
      NotQuantified(ts, k, j, rest, inner, extended);
      PieceReads(ts, i, k, p, inner, extended);
      BranchReads(ts, k, j, rest, inner, extended);
      CatIsPairs(PieceMeans(p), BranchMeans(rest));
  }

  /** What follows a piece in a branch is no quantifier. */
  lemma NotQuantified(ts: seq<Token>, k: nat, j: nat, rest: Branch, inner: bool, extended: bool)
    requires Holds(ts, k, j, OfBranch(rest)) && LegalBranch(rest, inner, extended) && SeeStop(ts, j, inner)
    ensures k < |ts| ==> !ts[k].Quant?
  {
    if rest.Then? {
      HoldsParts(ts, k, j, OfPiece(rest.p), OfBranch(rest.rest));
      StartsPiece(ts, k, k + |OfPiece(rest.p)|, rest.p, inner, extended);
    }
  }

  lemma HoldsTwo(ts: seq<Token>, i: nat, j: nat, p: seq<Token>, t: Token, q: seq<Token>)
    requires Holds(ts, i, j, p + ([t] + q))
    ensures var k := i + |p|; k < j && Holds(ts, i, k, p) && ts[k] == t && Holds(ts, k + 1, j, q)
  {
    assert p + ([t] + q) == p + [t] + q;
    HoldsAround(ts, i, j, p, t, q);
  }

  lemma {:induction false} ExprReads(ts: seq<Token>, i: nat, j: nat, e: Expr, inner: bool, extended: bool)
    requires Holds(ts, i, j, OfExpr(e)) && LegalExpr(e, inner, extended) && AtEnd(ts, j, inner)
    ensures var r := ReAt(ts, i, inner, extended); r.Parsed? && r.next == j && Words(r.re) == ExprMeans(e) && (TameExpr(e) ==> Tame(r.re))
    decreases e, 2
  {
    match e
    case Only(b) =>
      BranchReads(ts, i, j, b, inner, extended);
      OnlyBranch(ts, i, inner, extended);
    case Choice(b, others) => ChoiceReads(ts, i, j, b, others, inner, extended);
  }

  lemma {:induction false} ChoiceReads(ts: seq<Token>, i: nat, j: nat, b: Branch, others: Expr, inner: bool, extended: bool)
    requires Holds(ts, i, j, OfBranch(b) + ([Bar] + OfExpr(others))) && AtEnd(ts, j, inner)
    requires LegalBranch(b, inner, extended) && LegalExpr(others, inner, extended)
    ensures var r := ReAt(ts, i, inner, extended); r.Parsed? && r.next == j && Words(r.re) == BranchMeans(b) + ExprMeans(others)
    ensures TameBranch(b) && TameExpr(others) ==> Tame(ReAt(ts, i, inner, extended).re)
    decreases Choice(b, others), 0
  {
    var k := i + |OfBranch(b)|;
    HoldsTwo(ts, i, j, OfBranch(b), Bar, OfExpr(others));
    BranchReads(ts, i, k, b, inner, extended);
    ExprReads(ts, k + 1, j, others, inner, extended);
    BranchAndMore(ts, i, k, inner, extended);
    EitherWords(BranchAt(ts, i, inner, extended).re, ReAt(ts, k + 1, inner, extended).re);
  }

  lemma EitherWords(a: Re, b: Re)
    ensures Words(Either(a, b)) == Words(a) + Words(b)
  {
  }

  // ----- and what is read as one is one

  lemma HoldsJoin(ts: seq<Token>, i: nat, k: nat, j: nat, p: seq<Token>, q: seq<Token>)
    requires Holds(ts, i, k, p) && Holds(ts, k, j, q)
    ensures Holds(ts, i, j, p + q)
  {
    assert ts[i..j] == ts[i..k] + ts[k..j];
  }

  lemma OneHolds(ts: seq<Token>, i: nat)
    requires i < |ts|
    ensures Holds(ts, i, i + 1, [ts[i]])
  {
  }

  lemma QuantityRead(re: Re, X: Language, ts: seq<Token>, i: nat) returns (q: Quantity)
    requires i <= |ts| && Quantified(re, ts, i).Parsed? && Words(re) == X
    ensures var r := Quantified(re, ts, i); LegalQuantity(q) && Holds(ts, i, r.next, OfQuantity(q)) && Words(r.re) == SoMany(X, q)
  {
    q := Once;
    if i < |ts| && ts[i].Quant? {
      q := Many(ts[i].m, ts[i].n);
      RepsAreWordsInARow(X, q.m, q.n);
    }
  }

  lemma {:induction false} PieceRead(ts: seq<Token>, i: nat, inner: bool, extended: bool) returns (p: Piece)
    requires i < |ts| && !SeeStop(ts, i, inner) && PieceAt(ts, i, inner, extended).Parsed?
    ensures var r := PieceAt(ts, i, inner, extended);
            LegalPiece(p, inner, extended) && Holds(ts, i, r.next, OfPiece(p)) && Words(r.re) == PieceMeans(p)
    decreases |ts| - i, 0
  {
    var r := PieceAt(ts, i, inner, extended);
    OneHolds(ts, i);
    match ts[i]
    case Constraint(labels) => p := Fixed(labels);
    case Atom(labels) =>
      var q := QuantityRead(OneOf(labels), Words(OneOf(labels)), ts, i + 1);
      HoldsJoin(ts, i, i + 1, r.next, [ts[i]], OfQuantity(q));
      p := Single(labels, q);
    case Close(labels) =>
      var q := QuantityRead(OneOf(labels), Words(OneOf(labels)), ts, i + 1);
      HoldsJoin(ts, i, i + 1, r.next, [ts[i]], OfQuantity(q));
      p := Literal(labels, q);
    case Open => p := GroupRead(ts, i, extended);
  }

  lemma {:induction false} GroupRead(ts: seq<Token>, i: nat, extended: bool) returns (p: Piece)
    requires i < |ts| && ts[i].Open? && PieceAt(ts, i, false, extended).Parsed?
    ensures var r := PieceAt(ts, i, false, extended);
            p.Group? && LegalPiece(p, true, extended) && Holds(ts, i, r.next, OfPiece(p)) && Words(r.re) == PieceMeans(p)
    decreases |ts| - i - 1, 3
  {
    var r, inside := PieceAt(ts, i, false, extended), ReAt(ts, i + 1, true, extended);
    var e := ExprRead(ts, i + 1, true, extended);
    var k := inside.next;
    var q := QuantityRead(inside.re, ExprMeans(e), ts, k + 1);
    OneHolds(ts, i);
    OneHolds(ts, k);
    HoldsJoin(ts, k, k + 1, r.next, [ts[k]], OfQuantity(q));
    HoldsJoin(ts, i + 1, k, r.next, OfExpr(e), [ts[k]] + OfQuantity(q));
    HoldsJoin(ts, i, i + 1, r.next, [ts[i]], OfExpr(e) + ([ts[k]] + OfQuantity(q)));
    p := Group(e, ts[k].labels, q);
  }

  lemma {:induction false} BranchRead(ts: seq<Token>, i: nat, inner: bool, extended: bool) returns (b: Branch)
    requires i <= |ts| && BranchAt(ts, i, inner, extended).Parsed?
    ensures var r := BranchAt(ts, i, inner, extended);
            LegalBranch(b, inner, extended) && Holds(ts, i, r.next, OfBranch(b)) && Words(r.re) == BranchMeans(b)
    decreases |ts| - i, 1
  {
    b := Over;
    if !SeeStop(ts, i, inner) {
      var k := PieceAt(ts, i, inner, extended).next;
      var p := PieceRead(ts, i, inner, extended);
      var rest := BranchRead(ts, k, inner, extended);
      HoldsJoin(ts, i, k, BranchAt(ts, i, inner, extended).next, OfPiece(p), OfBranch(rest));
      CatIsPairs(PieceMeans(p), BranchMeans(rest));
      b := Then(p, rest);
    }
  }

  lemma {:induction false} ExprRead(ts: seq<Token>, i: nat, inner: bool, extended: bool) returns (e: Expr)
    requires i <= |ts| && ReAt(ts, i, inner, extended).Parsed?
    ensures var r := ReAt(ts, i, inner, extended);
            LegalExpr(e, inner, extended) && Holds(ts, i, r.next, OfExpr(e)) && Words(r.re) == ExprMeans(e)
    decreases |ts| - i, 2
  {
    var r := ReAt(ts, i, inner, extended);
    var k := BranchAt(ts, i, inner, extended).next;
    var b := BranchRead(ts, i, inner, extended);
    e := Only(b);
    if k < |ts| && ts[k].Bar? {
      var others := ExprRead(ts, k + 1, inner, extended);
      OneHolds(ts, k);
      HoldsJoin(ts, k, k + 1, r.next, [ts[k]], OfExpr(others));
      HoldsJoin(ts, i, k, r.next, OfBranch(b), [Bar] + OfExpr(others));
      e := Choice(b, others);
    }
  }

  /** The tokens of an expression. */
  ghost predicate Expresses(ts: seq<Token>, e: Expr, extended: bool) { LegalExpr(e, false, extended) && OfExpr(e) == ts }

  /** Tokens are read exactly if they are those of an expression, and then with its words. */
  lemma ReadsExpressions(ts: seq<Token>, extended: bool)
    ensures ReAt(ts, 0, false, extended).Parsed? <==> exists e :: Expresses(ts, e, extended)
    ensures forall e :: Expresses(ts, e, extended) ==> Words(ReAt(ts, 0, false, extended).re) == ExprMeans(e)
  {
    assert ts[0..|ts|] == ts;
    if ReAt(ts, 0, false, extended).Parsed? {
      var e := ExprRead(ts, 0, false, extended);
      assert Expresses(ts, e, extended);
    }
    forall e | Expresses(ts, e, extended)
      ensures ReAt(ts, 0, false, extended).Parsed? && Words(ReAt(ts, 0, false, extended).re) == ExprMeans(e)
    {
      ExprReads(ts, 0, |ts|, e, false, extended);
    }
  }

  /** What is tame is read as something tame. */
  lemma TameIsRead(ts: seq<Token>, e: Expr, extended: bool)
    requires Expresses(ts, e, extended) && TameExpr(e)
    ensures ReAt(ts, 0, false, extended).Parsed? && Tame(ReAt(ts, 0, false, extended).re)
  {
    assert ts[0..|ts|] == ts;
    ExprReads(ts, 0, |ts|, e, false, extended);
  }

  /** Tokens do not mean two things. */
  lemma OneMeaning(ts: seq<Token>, d: Expr, e: Expr, extended: bool)
    requires Expresses(ts, d, extended) && Expresses(ts, e, extended)
    ensures ExprMeans(d) == ExprMeans(e)
  {
    ReadsExpressions(ts, extended);
  }

  // ----- what is refused

  /** How many groups are open before token `k`. */
  function Depth(ts: seq<Token>, k: nat): (d: nat)
    requires k <= |ts|
  {
    if k == 0 then 0 else
      var d := Depth(ts, k - 1);
      if ts[k - 1].Open? then d + 1 else if ts[k - 1].Close? && d > 0 then d - 1 else d
  }

  /** An atom or a group has just come to its end. */
  predicate AfterAtom(ts: seq<Token>, k: nat)
    requires k <= |ts|
  {
    k > 0 && (ts[k - 1].Atom? || ts[k - 1].Close?)
  }

  datatype Fault = Fine | Wrong(error: Error)

  /** What is wrong with token `k`, or with the end: a quantifier of nothing, bounds out of order, a
      parenthesis that closes nothing, a group that is not closed. */
  function FaultAt(ts: seq<Token>, k: nat, extended: bool): Fault
    requires k <= |ts|
  {
    if k == |ts| then if Depth(ts, k) > 0 then Wrong(Unbalanced) else Fine
    else if ts[k].Quant? then
      if !AfterAtom(ts, k) then Wrong(BadRepeat) else if ts[k].m > ts[k].n then Wrong(BadBraces) else Fine
    else if ts[k].Close? && Depth(ts, k) == 0 && !extended then Wrong(Unbalanced)
    else Fine
  }

  /** The faults, token by token. Without an opening parenthesis before it, a closing one closes
      nothing; with one that nothing has closed since, it does. */
  lemma FaultsAre(ts: seq<Token>, k: nat, extended: bool)
    requires k <= |ts|
    ensures FaultAt(ts, k, extended) == Wrong(BadRepeat) <==>
      k < |ts| && ts[k].Quant? && (k == 0 || ts[k - 1].Open? || ts[k - 1].Bar? || ts[k - 1].Constraint? || ts[k - 1].Quant?)
    ensures FaultAt(ts, k, extended) == Wrong(BadBraces) <==>
      0 < k < |ts| && ts[k].Quant? && (ts[k - 1].Atom? || ts[k - 1].Close?) && ts[k].m > ts[k].n
    ensures (forall j :: 0 <= j < k ==> !ts[j].Open?) ==>
      (FaultAt(ts, k, extended) == Wrong(Unbalanced) <==> k < |ts| && ts[k].Close? && !extended)
    ensures (exists j :: 0 <= j < k && OpenSince(ts, j, k)) ==> (FaultAt(ts, k, extended) == Wrong(Unbalanced) <==> k == |ts|)
  {
    if forall j :: 0 <= j < k ==> !ts[j].Open? { NoDepth(ts, k); }
    if j :| 0 <= j < k && OpenSince(ts, j, k) { SomeDepth(ts, j, k); }
  }

  predicate OpenSince(ts: seq<Token>, j: nat, k: nat)
    requires j < k <= |ts|
  {
    ts[j].Open? && forall n :: j < n < k ==> !ts[n].Close?
  }

  lemma {:induction false} NoDepth(ts: seq<Token>, k: nat)
    requires k <= |ts| && forall j :: 0 <= j < k ==> !ts[j].Open?
    ensures Depth(ts, k) == 0
  {
    if k > 0 {
      NoDepth(ts, k - 1);
    }
  }

  lemma {:induction false} SomeDepth(ts: seq<Token>, j: nat, k: nat)
    requires j < k <= |ts| && OpenSince(ts, j, k)
    ensures Depth(ts, k) > 0
  {
    if k > j + 1 {
      SomeDepth(ts, j, k - 1);
    }
  }

  predicate AllFine(ts: seq<Token>, i: nat, j: nat, extended: bool)
    requires j <= |ts|
  {
    forall k :: i <= k < j ==> FaultAt(ts, k, extended).Fine?
  }

  /** From `i` on, the first fault is `e`. */
  ghost predicate FirstFault(ts: seq<Token>, i: nat, e: Error, extended: bool) {
    exists k :: i <= k <= |ts| && FaultAt(ts, k, extended) == Wrong(e) && AllFine(ts, i, k, extended)
  }

  /** What has been read from `i` on is fine, up to the fault that was met, if any. */
  ghost predicate Judged(ts: seq<Token>, i: nat, r: Parsed, extended: bool) {
    match r
    case Failed(e) => FirstFault(ts, i, e, extended)
    case Parsed(_, j) => i <= j <= |ts| && AllFine(ts, i, j, extended) && Depth(ts, j) == Depth(ts, i)
  }

  /** If what begins at `k` is judged, so is what begins at `i`. */
  lemma JudgedBefore(ts: seq<Token>, i: nat, k: nat, r: Parsed, extended: bool)
    requires i <= k <= |ts| && AllFine(ts, i, k, extended) && Judged(ts, k, r, extended) && Depth(ts, k) == Depth(ts, i)
    ensures Judged(ts, i, r, extended)
  {
    if r.Failed? {
      var n :| k <= n <= |ts| && FaultAt(ts, n, extended) == Wrong(r.error) && AllFine(ts, k, n, extended);
      assert AllFine(ts, i, n, extended);
    }
  }

  lemma FailedBefore(ts: seq<Token>, i: nat, k: nat, e: Error, extended: bool)
    requires i <= k <= |ts| && AllFine(ts, i, k, extended) && FirstFault(ts, k, e, extended)
    ensures FirstFault(ts, i, e, extended)
  {
    var n :| k <= n <= |ts| && FaultAt(ts, n, extended) == Wrong(e) && AllFine(ts, k, n, extended);
    assert AllFine(ts, i, n, extended);
  }

  lemma HereFails(ts: seq<Token>, i: nat, e: Error, extended: bool)
    requires i <= |ts| && FaultAt(ts, i, extended) == Wrong(e)
    ensures FirstFault(ts, i, e, extended)
  {
    assert AllFine(ts, i, i, extended);
  }

  /** An atom that ends at `k`, and its quantifier. */
  lemma QuantifiedJudged(re: Re, ts: seq<Token>, k: nat, extended: bool)
    requires k <= |ts| && AfterAtom(ts, k)
    ensures var r := Quantified(re, ts, k);
            Judged(ts, k, r, extended) && (r.Parsed? && r.next < |ts| && ts[r.next].Quant? ==> !AfterAtom(ts, r.next))
  {
    if k < |ts| && ts[k].Quant? && ts[k].m > ts[k].n {
      HereFails(ts, k, BadBraces, extended);
    }
  }

  lemma {:induction false} PieceJudged(ts: seq<Token>, i: nat, inner: bool, extended: bool)
    requires i < |ts| && !SeeStop(ts, i, inner) && (inner <==> Depth(ts, i) > 0) && (ts[i].Quant? ==> !AfterAtom(ts, i))
    ensures var r := PieceAt(ts, i, inner, extended);
            Judged(ts, i, r, extended) && (r.Parsed? && r.next < |ts| && ts[r.next].Quant? ==> !AfterAtom(ts, r.next))
    decreases |ts| - i, 0
  {
    var r := PieceAt(ts, i, inner, extended);
    match ts[i]
    case Constraint(_) =>
    case Quant(_, _) => HereFails(ts, i, BadRepeat, extended);
    case Atom(labels) =>
      QuantifiedJudged(OneOf(labels), ts, i + 1, extended);
      JudgedBefore(ts, i, i + 1, r, extended);
    case Close(labels) =>
      if extended {
        QuantifiedJudged(OneOf(labels), ts, i + 1, extended);
        JudgedBefore(ts, i, i + 1, r, extended);
      } else {
        HereFails(ts, i, Unbalanced, extended);
      }
    case Open => GroupJudged(ts, i, inner, extended);
  }

  lemma {:induction false} GroupJudged(ts: seq<Token>, i: nat, inner: bool, extended: bool)
    requires i < |ts| && ts[i].Open? && !SeeStop(ts, i, inner)
    ensures var r := PieceAt(ts, i, inner, extended);
            Judged(ts, i, r, extended) && (r.Parsed? && r.next < |ts| && ts[r.next].Quant? ==> !AfterAtom(ts, r.next))
    decreases |ts| - i - 1, 3
  {
    var r, inside := PieceAt(ts, i, inner, extended), ReAt(ts, i + 1, true, extended);
    assert AllFine(ts, i, i + 1, extended);
    ReJudged(ts, i + 1, true, extended);
    if inside.Failed? {
      FailedBefore(ts, i, i + 1, inside.error, extended);
    } else {
      var k := inside.next;
      assert AllFine(ts, i, k + 1, extended);
      QuantifiedJudged(inside.re, ts, k + 1, extended);
      JudgedBefore(ts, i, k + 1, r, extended);
    }
  }

  lemma {:induction false} BranchJudged(ts: seq<Token>, i: nat, inner: bool, extended: bool)
    requires i <= |ts| && (inner <==> Depth(ts, i) > 0) && (i < |ts| && ts[i].Quant? ==> !AfterAtom(ts, i))
    ensures Judged(ts, i, BranchAt(ts, i, inner, extended), extended)
    decreases |ts| - i, 1
  {
    if !SeeStop(ts, i, inner) {
      PieceJudged(ts, i, inner, extended);
      var p := PieceAt(ts, i, inner, extended);
      if p.Parsed? {
        BranchJudged(ts, p.next, inner, extended);
        var r := BranchAt(ts, p.next, inner, extended);
        JudgedBefore(ts, i, p.next, r, extended);
      }
    }
  }

  lemma {:induction false} ReJudged(ts: seq<Token>, i: nat, inner: bool, extended: bool)
    requires i <= |ts| && (inner <==> Depth(ts, i) > 0) && !AfterAtom(ts, i)
    ensures Judged(ts, i, ReAt(ts, i, inner, extended), extended)
    decreases |ts| - i, 2
  {
    BranchJudged(ts, i, inner, extended);
    var b := BranchAt(ts, i, inner, extended);
    if b.Parsed? {
      if b.next < |ts| && ts[b.next].Bar? {
        assert AllFine(ts, i, b.next + 1, extended);
        ReJudged(ts, b.next + 1, inner, extended);
        JudgedBefore(ts, i, b.next + 1, ReAt(ts, b.next + 1, inner, extended), extended);
      } else if inner && b.next == |ts| {
        HereFails(ts, |ts|, Unbalanced, extended);
        FailedBefore(ts, i, |ts|, Unbalanced, extended);
      }
    }
  }

  /** Tokens are refused exactly if there is a fault, and with the first one. */
  lemma RefusedForFirstFault(ts: seq<Token>, extended: bool)
    ensures ReAt(ts, 0, false, extended).Parsed? <==> forall k :: 0 <= k <= |ts| ==> FaultAt(ts, k, extended).Fine?
    ensures forall e :: ReAt(ts, 0, false, extended) == Failed(e) <==> FirstFault(ts, 0, e, extended)
  {
    ReJudged(ts, 0, false, extended);
    var r := ReAt(ts, 0, false, extended);
    forall e | FirstFault(ts, 0, e, extended) ensures r == Failed(e) {
      var k :| 0 <= k <= |ts| && FaultAt(ts, k, extended) == Wrong(e) && AllFine(ts, 0, k, extended);
      if r.Failed? {
        var n :| 0 <= n <= |ts| && FaultAt(ts, n, extended) == Wrong(r.error) && AllFine(ts, 0, n, extended);
        assert k == n;
      }
    }
  }
}

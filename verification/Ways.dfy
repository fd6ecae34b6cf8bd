/** Words that read nothing, and expressions that repeat without bound only what reads something. */
module Ways {
  import opened Automaton
  import opened Fragments
  import opened Grammar

  /** The word reads no character. */
  predicate Blind(l: seq<Label>) { forall x :: x in l ==> x.0 != Plain }

  /** Some word reads no character. */
  ghost predicate Way(X: Language) { exists l :: l in X && Blind(l) }

  /** Whatever is repeated without bound reads something. */
  ghost predicate Tame(re: Re) {
    match re
    case OneOf(_) => true
    case Nothing => true
    case InRow(a, b) => Tame(a) && Tame(b)
    case Either(a, b) => Tame(a) && Tame(b)
    case Times(a, _, n) => Tame(a) && (n == INFINITY ==> !Way(Words(a)))
  }

  lemma WayEmpty()
    ensures Way(JustEmpty())
  {
    var l: seq<Label> := [];
    assert l in JustEmpty() && Blind(l);
  }

  lemma WayLabels(labels: set<Label>)
    ensures Way(Words(OneOf(labels))) <==> exists x :: x in labels && x.0 != Plain
  {
    if x :| x in labels && x.0 != Plain {
      assert [x] in Words(OneOf(labels)) && Blind([x]);
    }
    if Way(Words(OneOf(labels))) {
      var l :| l in Words(OneOf(labels)) && Blind(l);
      assert l[0] in l;
    }
  }

  lemma WayEither(X: Language, Y: Language)
    ensures Way(X + Y) <==> Way(X) || Way(Y)
  {
    if l :| l in X && Blind(l) { assert l in X + Y; }
    if l :| l in Y && Blind(l) { assert l in X + Y; }
  }

  lemma WayCat(X: Language, Y: Language)
    ensures Way(Cat(X, Y)) <==> Way(X) && Way(Y)
  {
    if k, l :| k in X && Blind(k) && l in Y && Blind(l) {
      InCat(X, Y, k, l);
      assert Blind(k + l);
    }
    if l :| l in Cat(X, Y) && Blind(l) {
      var i :| 0 <= i <= |l| && l[..i] in X && l[i..] in Y;
      assert Blind(l[..i]) && Blind(l[i..]);
    }
  }

  lemma {:induction false} WayPower(X: Language, k: nat)
    ensures Way(Power(X, k)) <==> k == 0 || Way(X)
  {
    if k == 0 {
      WayEmpty();
    } else {
      WayPower(X, k - 1);
      WayCat(X, Power(X, k - 1));
    }
  }

  lemma WayReps(X: Language, m: nat, n: int)
    requires m <= n
    ensures Way(Reps(X, m, n)) <==> m == 0 || Way(X)
  {
    if m == 0 || Way(X) {
      WayPower(X, m);
      var l :| l in Power(X, m) && Blind(l);
      assert l in Reps(X, m, n);
    }
    if Way(Reps(X, m, n)) {
      var l :| l in Reps(X, m, n) && Blind(l);
      var k: nat :| m <= k && (n == INFINITY || k <= n) && l in Power(X, k);
      WayPower(X, k);
    }
  }
}

/** Which groups take part in a match, and over what: the other way around from dissection. */
module Groups {
  import opened CompactNfa
  import opened Simulation
  import opened Dissection

  /** Of the points where the left part may end and the right part begin, the one that the left
      part prefers: the last one, or the first one if it prefers to be short. */
  ghost predicate Preferred(t: Subre, txt: Text, b: int, m: int, e: int) {
    && t.Subre? && t.left.Subre? && Accepted(t.left, txt, b, m) && Accepted(t.right, txt, m, e)
    && forall k :: Accepted(t.left, txt, b, k) && Accepted(t.right, txt, k, e) ==> if t.left.shorter then m <= k else k <= m
  }

  /** Group `n` takes part, over `i` to `j`, in the match of `t` from `b` to `e`: a group over what
      it matches; of a concatenation, what is on either side of the preferred point; of alternatives,
      what is in the first one that accepts. */
  ghost predicate TakesPart(t: Subre, txt: Text, b: int, e: int, n: nat, i: nat, j: nat)
    decreases t
  {
    t.Subre? && match t.op
      case '(' => (n == t.subno && i == b && j == e) || TakesPart(t.left, txt, b, e, n, i, j)
      case '.' => exists m :: Preferred(t, txt, b, m, e) && (TakesPart(t.left, txt, b, m, n, i, j) || TakesPart(t.right, txt, m, e, n, i, j))
      case '|' => if Accepted(t.left, txt, b, e) then TakesPart(t.left, txt, b, e, n, i, j) else TakesPart(t.right, txt, b, e, n, i, j)
      case _ => false
  }

  /** How many groups have the number `n`. */
  function GroupsOf(t: Subre, n: nat): nat {
    if t.Null? then 0 else GroupsOf(t.left, n) + GroupsOf(t.right, n) + if t.op == '(' && t.subno == n then 1 else 0
  }

  lemma OnePreferred(t: Subre, txt: Text, b: int, m: int, k: int, e: int)
    requires Preferred(t, txt, b, m, e) && Preferred(t, txt, b, k, e)
    ensures m == k
  {
  }

  /** What dissection records is what takes part. */
  lemma {:induction false} CapturesTakePart(t: Subre, txt: Text, b: int, e: int, n: nat, i: nat, j: nat)
    requires Composed(t, txt) && Accepted(t, txt, b, e)
    ensures Capture(n, i, j) in Captures(t, txt, b, e) <==> TakesPart(t, txt, b, e, n, i, j)
    decreases t, 1
  {
    if t.op == '.' {
      BestSplitExists(t, txt, b, e);
      var m :| BestSplit(t, txt, b, m, e);
      assert Feasible(t, txt, b, m, e) && Preferred(t, txt, b, m, e) by {
        forall k | Accepted(t.left, txt, b, k) && Accepted(t.right, txt, k, e) ensures if t.left.shorter then m <= k else k <= m {
          assert Feasible(t, txt, b, k, e);
        }
      }
      CapturesSplit(t, txt, b, e, m);
      CapturesTakePart(t.left, txt, b, m, n, i, j);
      CapturesTakePart(t.right, txt, m, e, n, i, j);
      SplitTakesPart(t, txt, b, m, e, n, i, j);
    } else if t.op == '(' {
      CapturesTakePart(t.left, txt, b, e, n, i, j);
    } else if t.op == '|' {
      ChainTakesPart(t, txt, b, e, n, i, j);
    }
  }

  lemma SplitTakesPart(t: Subre, txt: Text, b: int, m: int, e: int, n: nat, i: nat, j: nat)
    requires t.Subre? && t.op == '.' && Preferred(t, txt, b, m, e)
    ensures TakesPart(t, txt, b, e, n, i, j) <==> TakesPart(t.left, txt, b, m, n, i, j) || TakesPart(t.right, txt, m, e, n, i, j)
  {
  }

  lemma {:induction false} ChainTakesPart(t: Subre, txt: Text, b: int, e: int, n: nat, i: nat, j: nat)
    requires Chained(t, txt) && SomeAlternative(t, txt, b, e)
    ensures Capture(n, i, j) in ChainCaptures(t, txt, b, e) <==> TakesPart(t, txt, b, e, n, i, j)
    decreases t, 0
  {
    if Accepted(t.left, txt, b, e) {
      CapturesTakePart(t.left, txt, b, e, n, i, j);
    } else {
      ChainTakesPart(t.right, txt, b, e, n, i, j);
    }
  }

  lemma {:induction false} TakesPartIsThere(t: Subre, txt: Text, b: int, e: int, n: nat, i: nat, j: nat)
    requires TakesPart(t, txt, b, e, n, i, j)
    ensures GroupsOf(t, n) > 0
    decreases t
  {
    if t.op == '.' {
      var m :| Preferred(t, txt, b, m, e) && (TakesPart(t.left, txt, b, m, n, i, j) || TakesPart(t.right, txt, m, e, n, i, j));
      if TakesPart(t.left, txt, b, m, n, i, j) { TakesPartIsThere(t.left, txt, b, m, n, i, j); } else { TakesPartIsThere(t.right, txt, m, e, n, i, j); }
    } else if t.op == '|' {
      if Accepted(t.left, txt, b, e) { TakesPartIsThere(t.left, txt, b, e, n, i, j); } else { TakesPartIsThere(t.right, txt, b, e, n, i, j); }
    } else if !(n == t.subno && i == b && j == e) {
      TakesPartIsThere(t.left, txt, b, e, n, i, j);
    }
  }

  /** A group whose number no other has takes part over one stretch at most. */
  lemma {:induction false} TakesPartOnce(t: Subre, txt: Text, b: int, e: int, n: nat, i: nat, j: nat, k: nat, l: nat)
    requires TakesPart(t, txt, b, e, n, i, j) && TakesPart(t, txt, b, e, n, k, l) && GroupsOf(t, n) <= 1
    ensures i == k && j == l
    decreases t
  {
    if t.op == '.' {
      var m :| Preferred(t, txt, b, m, e) && (TakesPart(t.left, txt, b, m, n, i, j) || TakesPart(t.right, txt, m, e, n, i, j));
      SplitTakesPart(t, txt, b, m, e, n, k, l);
      if TakesPart(t.left, txt, b, m, n, i, j) { TakesPartIsThere(t.left, txt, b, m, n, i, j); } else { TakesPartIsThere(t.right, txt, m, e, n, i, j); }
      if TakesPart(t.left, txt, b, m, n, k, l) { TakesPartIsThere(t.left, txt, b, m, n, k, l); } else { TakesPartIsThere(t.right, txt, m, e, n, k, l); }
      if GroupsOf(t.left, n) > 0 { TakesPartOnce(t.left, txt, b, m, n, i, j, k, l); } else { TakesPartOnce(t.right, txt, m, e, n, i, j, k, l); }
    } else if t.op == '|' {
      if Accepted(t.left, txt, b, e) { TakesPartOnce(t.left, txt, b, e, n, i, j, k, l); } else { TakesPartOnce(t.right, txt, b, e, n, i, j, k, l); }
    } else if n == t.subno {
      if TakesPart(t.left, txt, b, e, n, i, j) { TakesPartIsThere(t.left, txt, b, e, n, i, j); }
      if TakesPart(t.left, txt, b, e, n, k, l) { TakesPartIsThere(t.left, txt, b, e, n, k, l); }
    } else {
      TakesPartOnce(t.left, txt, b, e, n, i, j, k, l);
    }
  }

  /** An entry of the vector says over what the group has taken part, or that it has not. */
  ghost predicate EntryTells(t: Subre, txt: Text, b: int, e: int, n: nat, entry: (int, int)) {
    && (forall i: nat, j: nat :: TakesPart(t, txt, b, e, n, i, j) ==> entry == (i, j))
    && ((forall i: nat, j: nat :: !TakesPart(t, txt, b, e, n, i, j)) ==> entry == (-1, -1))
  }

  lemma RecordedTells(t: Subre, txt: Text, b: int, e: int, p: Vector, n: nat)
    requires Composed(t, txt) && Accepted(t, txt, b, e) && n < |p| && p[n] == (-1, -1) && GroupsOf(t, n) <= 1
    ensures EntryTells(t, txt, b, e, n, Recorded(p, Captures(t, txt, b, e))[n])
  {
    var caps := Captures(t, txt, b, e);
    RecordedEntry(p, caps, n);
    forall i: nat, j: nat ensures Capture(n, i, j) in caps <==> TakesPart(t, txt, b, e, n, i, j) {
      CapturesTakePart(t, txt, b, e, n, i, j);
    }
    forall i: nat, j: nat | TakesPart(t, txt, b, e, n, i, j) ensures Recorded(p, caps)[n] == (i, j) {
      assert Capture(n, i, j) in caps;
      var c :| c in caps && c.subno == n && Recorded(p, caps)[n] == (c.so, c.eo);
      assert c == Capture(n, c.so, c.eo);
      TakesPartOnce(t, txt, b, e, n, i, j, c.so, c.eo);
    }
    if forall i: nat, j: nat :: !TakesPart(t, txt, b, e, n, i, j) {
      forall c | c in caps ensures c.subno != n { assert c == Capture(c.subno, c.so, c.eo); }
    }
  }
}

/** `simpleFind`: the whole of matching a regular expression without back references. */
module Execute {
  import opened CompactNfa
  import opened Simulation
  import opened CacheLinks
  import opened CacheRoom
  import opened Search
  import opened Dissection
  import opened Groups

  /** The search automaton and the tree, ready for the text. */
  ghost predicate Ready(s: Cnfa, t: Subre, txt: Text) {
    t.Subre? && Finds(s, t.cnfa, txt) && Runs(t, txt) && Composed(t, txt)
  }

  /** A vector of `n` entries of which only entry 0 is set. */
  function Zapped(n: nat, b: int, e: int): (p: Vector)
    ensures |p| == n
  {
    seq(n, i => if i == 0 then (b, e) else (-1, -1))
  }

  /** Initialize the subexpressions to no match. */
  method ZapSubexpressions(pmatch: array<(int, int)>)
    requires pmatch.Length > 0
    modifies pmatch
    ensures pmatch[..] == Zapped(pmatch.Length, old(pmatch[0]).0, old(pmatch[0]).1)
  {
    var i := pmatch.Length - 1;
    while i > 0
      invariant 0 <= i < pmatch.Length && pmatch[0] == old(pmatch[0])
      invariant forall k :: i < k < pmatch.Length ==> pmatch[k] == (-1, -1)
    {
      pmatch[i] := (-1, -1);
      i := i - 1;
    }
  }

  /** The match vector says where the leftmost match is, which of its ends is preferred,
      and (given room for more) what its subexpressions capture. */
  ghost predicate Answer(t: Subre, txt: Text, b: nat, e: nat, p: Vector)
    requires t.Subre? && Composed(t, txt)
  {
    && Leftmost(t.cnfa, txt, b) && BestEnd(t.cnfa, txt, t.shorter, b, e)
    && (|p| == 1 ==> p == [(b, e)])
    && (|p| > 1 ==> p == Recorded(Zapped(|p|, b, e), Captures(t, txt, b, e)))
  }

  /** Pin down the details of a match. */
  method PinDown(t: Subre, txt: Text, begin: nat, end: nat, pmatch: array<(int, int)>) returns (code: Code)
    requires t.Subre? && Composed(t, txt) && pmatch.Length > 0
    requires Leftmost(t.cnfa, txt, begin) && BestEnd(t.cnfa, txt, t.shorter, begin, end)
    modifies pmatch
    ensures code == Okay && Answer(t, txt, begin, end, pmatch[..])
  {
    pmatch[0] := (begin, end);
    if pmatch.Length == 1 {
      assert pmatch[..] == [(begin, end)];
      return Okay;
    }
    ZapSubexpressions(pmatch);
    code := Dissect(t, txt, begin, end, pmatch);
  }

  ghost predicate SomeMatch(t: Subre, txt: Text) { exists b, e :: Accepted(t, txt, b, e) }

  lemma RangeMeansMatch(t: Subre, txt: Text, open: nat, close: int)
    requires t.Subre? && close <= |txt.col|
    requires close == NONE ==> forall b, e :: 0 <= b <= e <= |txt.col| ==> !Matches(t.cnfa, txt, b, e)
    requires close != NONE ==> 0 <= open <= close && SomeFrom(t.cnfa, txt, open, close)
    ensures SomeMatch(t, txt) <==> close != NONE
  {
    if close != NONE {
      var b :| open <= b <= close && Matches(t.cnfa, txt, b, close);
      assert Accepted(t, txt, b, close);
    }
  }

  /** Find the leftmost match, and dissect it. */
  method SimpleFind(s: Cnfa, t: Subre, txt: Text, pmatch: array<(int, int)>) returns (code: Code, ghost begin: nat, ghost end: nat)
    requires Ready(s, t, txt)
    modifies pmatch
    ensures code == if SomeMatch(t, txt) then Okay else NoMatch
    ensures code == NoMatch ==> pmatch[..] == old(pmatch[..])
    ensures code == Okay && pmatch.Length > 0 ==> Answer(t, txt, begin, end, pmatch[..]) && pmatch[0] == (begin, end)
    ensures code == Okay ==> forall n :: 0 < n < pmatch.Length && GroupsOf(t, n) <= 1 ==> EntryTells(t, txt, begin, end, n, pmatch[n])
  {
    begin, end := 0, 0;
    var open, close := FindRange(s, t.cnfa, txt);
    RangeMeansMatch(t, txt, if close == NONE then 0 else open, close);
    if close == NONE {
      return NoMatch, 0, 0;
    }
    if pmatch.Length == 0 {
      return Okay, 0, 0;
    }
    var b, e := TryStarts(t.cnfa, txt, t.shorter, open, close);
    begin, end := b, e;
    code := PinDown(t, txt, b, e, pmatch);
    WholeMatch(t, txt, b, e, pmatch[..]);
    forall n | 0 < n < pmatch.Length && GroupsOf(t, n) <= 1 ensures EntryTells(t, txt, b, e, n, pmatch[n]) {
      GroupTold(t, txt, b, e, pmatch[..], n);
    }
  }

  /** A group whose number no other has, and for which there is room, has its stretch in the
      vector if it takes part in the match, and otherwise that it does not. */
  lemma GroupTold(t: Subre, txt: Text, b: nat, e: nat, p: Vector, n: nat)
    requires t.Subre? && Composed(t, txt) && Answer(t, txt, b, e, p) && 0 < n < |p| && GroupsOf(t, n) <= 1
    ensures EntryTells(t, txt, b, e, n, p[n])
  {
    RecordedTells(t, txt, b, e, Zapped(|p|, b, e), n);
  }

  /** What the vector says of group `n`: that it did not take part, or a substring of the
      match that a capturing node with that number accepts. */
  lemma GroupEntry(t: Subre, txt: Text, b: nat, e: nat, p: Vector, n: nat)
    requires t.Subre? && Composed(t, txt) && Answer(t, txt, b, e, p) && 0 < n < |p|
    ensures || p[n] == (-1, -1)
            || (b <= p[n].0 <= p[n].1 <= e && exists c :: Made(t, txt, c) && c.subno == n && p[n] == (c.so, c.eo))
  {
    var caps := Captures(t, txt, b, e);
    RecordedEntry(Zapped(|p|, b, e), caps, n);
    CapturesSound(t, txt, b, e);
    if c :| c in caps && c.subno == n && p[n] == (c.so, c.eo) {
      assert Made(t, txt, c);
    }
  }

  /** Entry 0 is the whole match: no capturing node has the number 0. */
  lemma WholeMatch(t: Subre, txt: Text, b: nat, e: nat, p: Vector)
    requires t.Subre? && Composed(t, txt) && Answer(t, txt, b, e, p) && |p| > 0
    ensures p[0] == (b, e)
  {
    if |p| > 1 {
      RecordedEntry(Zapped(|p|, b, e), Captures(t, txt, b, e), 0);
      CapturesNumbered(t, txt, b, e);
    }
  }
}

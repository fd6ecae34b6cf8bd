/** The compacted NFA that the executor runs. */
module CompactNfa {
  import opened Automaton

  datatype CArc = CArc(co: int, to: nat)

  /** Arc lists by state number. An arc colour below `ncolors` is a character class
      or pseudocolour; one above is `ncolors` plus the number of a lookahead constraint.
      `noprogress` marks pre and the states next to it. */
  datatype Cnfa = Cnfa(nstates: nat, ncolors: nat, pre: nat, post: nat, bos: (int, int), eos: (int, int),
                       hasLacons: bool, outs: seq<seq<CArc>>, noprogress: seq<bool>)

  function ArcOf(c: Cnfa, i: nat, ca: CArc): Arc {
    if ca.co < c.ncolors then Arc(Plain, ca.co, i, ca.to) else Arc(Lacon, ca.co - c.ncolors, i, ca.to)
  }

  ghost function ArcsOf(c: Cnfa): set<Arc> {
    set i: nat, k: nat | 0 <= i < |c.outs| && 0 <= k < |c.outs[i]| :: ArcOf(c, i, c.outs[i][k])
  }

  ghost function FrameOf(c: Cnfa, holds: (int, int) -> bool, off: int): Frame {
    Frame(c.pre, c.post, c.bos.0, c.bos.1, c.eos.0, c.eos.1, holds, off)
  }

  /** What compaction guarantees and the executor relies on. */
  ghost predicate WellFormed(c: Cnfa) {
    && |c.outs| == c.nstates == |c.noprogress|
    && c.pre < c.nstates && c.post < c.nstates && c.pre != c.post
    && 0 <= c.bos.0 < c.ncolors && 0 <= c.bos.1 < c.ncolors && 0 <= c.eos.0 < c.ncolors && 0 <= c.eos.1 < c.ncolors
    && (forall i, k :: 0 <= i < c.nstates && 0 <= k < |c.outs[i]| ==>
          0 <= c.outs[i][k].co != c.ncolors && c.outs[i][k].to < c.nstates)
    && (forall a :: a in ArcsOf(c) ==>
          && a.from != c.post && !(a.from == c.pre && a.to == c.post)
          && (a.to == c.pre ==> a.from == c.pre)
          && (a.kind == Lacon ==> c.hasLacons && a.from != c.pre && a.to != c.post))
    && (forall q :: 0 <= q < c.nstates ==>
          (c.noprogress[q] <==> q == c.pre || exists a :: a in ArcsOf(c) && a.from == c.pre && a.to == q))
  }

  lemma ArcIn(c: Cnfa, i: nat, k: nat)
    requires i < |c.outs| && k < |c.outs[i]|
    ensures ArcOf(c, i, c.outs[i][k]) in ArcsOf(c)
  {
  }

  lemma ArcAt(c: Cnfa, a: Arc) returns (k: nat)
    requires a in ArcsOf(c)
    ensures a.from < |c.outs| && k < |c.outs[a.from]| && a == ArcOf(c, a.from, c.outs[a.from][k])
  {
    var i: nat, j: nat :| 0 <= i < |c.outs| && 0 <= j < |c.outs[i]| && a == ArcOf(c, i, c.outs[i][j]);
    k := j;
  }
}

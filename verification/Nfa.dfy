/** The mutable NFA of the regex compiler and its primitive operations. */
module NfaModel {
  import opened Automaton
  import opened Surgery

  predicate NoRepeats(s: seq<nat>) { forall i, j :: 0 <= i < j < |s| ==> s[i] != s[j] }

  function Without(s: seq<nat>, v: nat): seq<nat> {
    if s == [] then [] else (if s[0] == v then [] else [s[0]]) + Without(s[1..], v)
  }

  lemma {:induction false} WithoutMembers(s: seq<nat>, v: nat)
    ensures forall u :: u in Without(s, v) <==> u in s && u != v
    ensures NoRepeats(s) ==> NoRepeats(Without(s, v))
  {
    if s != [] {
      WithoutMembers(s[1..], v);
      assert forall u :: u in s <==> u == s[0] || u in s[1..];
      assert forall u :: u in Without(s, v) <==> (u == s[0] && s[0] != v) || u in Without(s[1..], v);
      if NoRepeats(s) {
        assert NoRepeats(s[1..]) && s[0] !in s[1..];
        var r := Without(s, v);
        if s[0] != v {
          assert r[1..] == Without(s[1..], v);
          forall i, j | 0 <= i < j < |r| ensures r[i] != r[j] {
            assert r[j] == r[1..][j-1] && (i > 0 ==> r[i] == r[1..][i-1]);
          }
        }
      }
    }
  }

  function CopiedIns(A: set<Arc>, old_: nat, new_: nat): set<Arc> {
    A + set a | a in InArcs(A, old_) :: a.(to := new_)
  }

  function CopiedOuts(A: set<Arc>, old_: nat, new_: nat): set<Arc> {
    A + set a | a in OutArcs(A, old_) :: a.(from := new_)
  }

  /** States are identities that are never used again; the state chain and the
      set of arcs are fields. Since `newarc` refuses duplicates, the arcs form a
      set, and a state's in- and out-chains are the arcs to and from it. */
  predicate Unknown(c: int, i: int) { false }

  function NfaFrame(pre: nat, post: nat, bos: (int, int), eos: (int, int)): Frame {
    Frame(pre, post, bos.0, bos.1, eos.0, eos.1, Unknown, 0)
  }

  class Nfa {
    const pre: nat
    const post: nat
    var states: seq<nat>
    var arcs: set<Arc>
    var fresh_: nat
    /** The number of each state, and the next number to give out. */
    var no: map<nat, nat>
    var nstates: nat
    /** The traversal marks; a state that is not in the map is unmarked. */
    var tmp: map<nat, nat>
    /** The pseudocolours of the string ends; in each pair the second is used
        unless the caller says the end is not a line end. */
    const bos: (int, int)
    const eos: (int, int)

    /** A frame for the NFA's words; what it says of lookahead constraints is of no account. */
    ghost function Ctx(): Frame {
      NfaFrame(pre, post, bos, eos)
    }

    ghost predicate Valid()
      reads this
    {
      && Ctx().Distinct()
      && NoRepeats(states)
      && (forall s :: s in states ==> s < fresh_ && s in no)
      && pre in states && post in states
      && (forall a :: a in arcs ==> a.from in states && a.to in states)
    }

    /** No state is marked. */
    ghost predicate Clean()
      reads this
    {
      tmp == map[]
    }

    /** The states are numbered along the chain from 0 on. */
    ghost predicate Numbered()
      reads this
    {
      nstates == |states| && forall i :: 0 <= i < |states| ==> states[i] in no && no[states[i]] == i
    }

    predicate Flagged(s: nat) { s == pre || s == post }

    /** Two flagged states, numbers 0 and 1, and no arcs yet. */
    constructor (bos: (int, int), eos: (int, int))
      requires NfaFrame(1, 0, bos, eos).Distinct()
      ensures Valid() && Numbered() && Clean() && arcs == {} && states == [post, pre] && pre == 1 && post == 0 && fresh_ == 2 && this.bos == bos && this.eos == eos
    {
      this.pre, this.post, this.bos, this.eos := 1, 0, bos, eos;
      states, arcs, fresh_ := [0, 1], {}, 2;
      no, nstates, tmp := map[0 := 0, 1 := 1], 2, map[];
    }

    method NewState() returns (s: nat)
      requires Valid()
      modifies this`states, this`fresh_, this`no, this`nstates
      ensures old(Numbered()) ==> Numbered()
      ensures Valid() && arcs == old(arcs)
      ensures s == old(fresh_) && states == old(states) + [s] && fresh_ == s + 1
      ensures Untouched(arcs, s) && s != pre && s != post
    {
      s := fresh_;
      assert s !in states;
      fresh_ := s + 1;
      no, nstates := no[s := nstates], nstates + 1;
      states := states + [s];
    }

    method NewArc(kind: Kind, co: int, from: nat, to: nat)
      requires Valid() && from in states && to in states
      modifies this`arcs
      ensures Valid() && arcs == old(arcs) + {Arc(kind, co, from, to)}
    {
      var a := Arc(kind, co, from, to);
      if a in arcs {
        return;
      }
      arcs := arcs + {a};
    }

    method FreeArc(a: Arc)
      requires Valid() && a in arcs
      modifies this`arcs
      ensures Valid() && arcs == old(arcs) - {a}
    {
      arcs := arcs - {a};
    }

    method CopyArc(a: Arc, from: nat, to: nat)
      requires Valid() && from in states && to in states
      modifies this`arcs
      ensures Valid() && arcs == old(arcs) + {a.(from := from, to := to)}
    {
      NewArc(a.kind, a.co, from, to);
    }

    method MoveIns(old_: nat, new_: nat)
      requires Valid() && new_ in states && old_ != new_
      modifies this`arcs
      ensures Valid() && arcs == CopiedIns(old(arcs), old_, new_) - InArcs(old(arcs), old_)
    {
      ghost var A := arcs;
      var ins := InArcs(arcs, old_);
      while ins != {}
        invariant Valid() && ins <= InArcs(A, old_) && ins == InArcs(arcs, old_)
        invariant arcs == A - (InArcs(A, old_) - ins) + set a | a in InArcs(A, old_) - ins :: a.(to := new_)
        decreases ins
      {
        var a :| a in ins;
        CopyArc(a, a.from, new_);
        FreeArc(a);
        ins := ins - {a};
      }
    }

    method CopyIns(old_: nat, new_: nat)
      requires Valid() && new_ in states && old_ != new_
      modifies this`arcs
      ensures Valid() && arcs == CopiedIns(old(arcs), old_, new_)
    {
      ghost var A := arcs;
      var ins := InArcs(arcs, old_);
      while ins != {}
        invariant Valid() && ins <= InArcs(A, old_)
        invariant arcs == A + set a | a in InArcs(A, old_) - ins :: a.(to := new_)
        decreases ins
      {
        var a :| a in ins;
        CopyArc(a, a.from, new_);
        ins := ins - {a};
      }
    }

    method MoveOuts(old_: nat, new_: nat)
      requires Valid() && new_ in states && old_ != new_
      modifies this`arcs
      ensures Valid() && arcs == CopiedOuts(old(arcs), old_, new_) - OutArcs(old(arcs), old_)
    {
      ghost var A := arcs;
      var outs := OutArcs(arcs, old_);
      while outs != {}
        invariant Valid() && outs <= OutArcs(A, old_) && outs == OutArcs(arcs, old_)
        invariant arcs == A - (OutArcs(A, old_) - outs) + set a | a in OutArcs(A, old_) - outs :: a.(from := new_)
        decreases outs
      {
        var a :| a in outs;
        CopyArc(a, new_, a.to);
        FreeArc(a);
        outs := outs - {a};
      }
    }

    method CopyOuts(old_: nat, new_: nat)
      requires Valid() && new_ in states && old_ != new_
      modifies this`arcs
      ensures Valid() && arcs == CopiedOuts(old(arcs), old_, new_)
    {
      ghost var A := arcs;
      var outs := OutArcs(arcs, old_);
      while outs != {}
        invariant Valid() && outs <= OutArcs(A, old_)
        invariant arcs == A + set a | a in OutArcs(A, old_) - outs :: a.(from := new_)
        decreases outs
      {
        var a :| a in outs;
        CopyArc(a, new_, a.to);
        outs := outs - {a};
      }
    }

    /** The state must have no arcs left, and pre and post are never freed. */
    method FreeState(s: nat)
      requires Valid() && s in states && !Flagged(s) && Untouched(arcs, s)
      modifies this`states, this`no
      ensures Valid() && states == Without(old(states), s)
    {
      WithoutMembers(states, s);
      assert forall u :: u in states && u != s ==> u in Without(states, s);
      no := no - {s};
      states := Without(states, s);
    }

    method DropState(s: nat)
      requires Valid() && s in states && !Flagged(s)
      modifies this`states, this`arcs, this`no
      ensures Valid() && states == Without(old(states), s)
      ensures arcs == old(arcs) - InArcs(old(arcs), s) - OutArcs(old(arcs), s)
    {
      ghost var A := arcs;
      var ins := InArcs(arcs, s);
      while ins != {}
        invariant Valid() && states == old(states) && ins <= arcs && arcs == A - (InArcs(A, s) - ins)
        decreases ins
      {
        var a :| a in ins;
        FreeArc(a);
        ins := ins - {a};
      }
      var outs := OutArcs(arcs, s);
      while outs != {}
        invariant Valid() && states == old(states) && outs <= arcs && arcs == A - InArcs(A, s) - (OutArcs(A, s) - outs)
        decreases outs
      {
        var a :| a in outs;
        FreeArc(a);
        outs := outs - {a};
      }
      FreeState(s);
    }
  }
}

/** The list of asynchronous handlers of a thread. */
module Async {
  import opened AsyncProtocol

  class Handler {
    var ready: bool
    var next: Handler?

    constructor ()
      ensures !ready && next == null
    {
      ready, next := false, null;
    }
  }

  /** What follows place `i` of a list. */
  ghost function NextOf(list: seq<Handler>, i: int): Handler? {
    if 0 <= i + 1 < |list| then list[i + 1] else null
  }

  datatype Outcome = Done | WrongThread | NotFound

  class ThreadData {
    var firstHandler: Handler?
    var lastHandler: Handler?
    var asyncReady: bool
    var asyncActive: bool
    /** The handlers from firstHandler on, and all that were ever created. */
    ghost var list: seq<Handler>
    ghost var born: seq<Handler>

    /** The list is linked up; its last handler is the true one whenever there is one. */
    ghost predicate Linked()
      reads this, list
    {
      && Distinct(list)
      && firstHandler == NextOf(list, -1)
      && (list != [] ==> lastHandler == list[|list| - 1])
      && forall i {:trigger NextOf(list, i)} :: 0 <= i < |list| ==> list[i].next == NextOf(list, i)
    }

    ghost function Marked(): set<Handler>
      reads this, list
    {
      set h | h in list && h.ready
    }

    ghost function Now(): Async<Handler>
      reads this, list
    {
      Async(list, Marked(), asyncReady, asyncActive, born)
    }

    ghost predicate Valid()
      reads this, list
    {
      Linked() && Good(Now())
    }

    constructor ()
      ensures Valid() && Now() == Async([], {}, false, false, [])
    {
      firstHandler, lastHandler := null, null;
      asyncReady, asyncActive := false, false;
      list, born := [], [];
    }

    /** A new handler joins the list at its end. */
    method AsyncCreate() returns (h: Handler)
      requires Valid()
      modifies this, list
      ensures Valid() && fresh(h) && Now() == Step(old(Now()), Create(h))
      ensures list == old(list) + [h] && !h.ready && lastHandler == h && forall g :: g in old(list) ==> g.ready == old(g.ready)
      ensures asyncReady == old(asyncReady) && asyncActive == old(asyncActive)
    {
      h := new Handler();
      ghost var s := Now();
      assert h !in list;
      if firstHandler == null {
        firstHandler := h;
      } else {
        lastHandler.next := h;
      }
      lastHandler := h;
      ghost var was := list;
      list, born := list + [h], born + [h];
      forall i | 0 <= i < |list| ensures list[i].next == NextOf(list, i) {
        if i < |was| {
          assert old(was[i].next) == NextOf(was, i);
        }
      }
      assert Marked() == s.ready;
      assert Now() == Step(s, Create(h));
      StepKeepsGood(s, Create(h));
    }

    /** Ask for a handler to be run; `alert` says that its thread is woken up. */
    method AsyncMark(h: Handler) returns (alert: bool)
      requires Valid() && h in list
      modifies this`asyncReady, h`ready
      ensures Valid() && Now() == Step(old(Now()), Mark(h))
      ensures h.ready && forall g :: g in list && g != h ==> g.ready == old(g.ready)
      ensures asyncReady <==> old(asyncReady) || !asyncActive
      ensures alert <==> !asyncActive
    {
      ghost var s := Now();
      h.ready := true;
      alert := !asyncActive;
      if !asyncActive {
        asyncReady := true;
      }
      assert Marked() == s.ready + {h};
      assert Now() == Step(s, Mark(h));
      StepKeepsGood(s, Mark(h));
    }

    /** Go through the list for a marked handler. */
    method FindReady() returns (h: Handler?, ghost i: nat)
      requires Linked()
      ensures h == match FirstReady(list, Marked()) case Some(f) => f case None => null
      ensures i <= |list| && h == NextOf(list, i - 1) && (h != null ==> h.ready) && forall k :: 0 <= k < i ==> !list[k].ready
    {
      i := 0;
      h := firstHandler;
      while h != null && !h.ready
        invariant 0 <= i <= |list| && h == NextOf(list, i - 1)
        invariant forall k :: 0 <= k < i ==> !list[k].ready
        decreases |list| - i
      {
        assert h.next == NextOf(list, i);
        h := h.next;
        i := i + 1;
      }
      FirstAt(list, Marked(), i);
    }

    /** No handler created before `h` is in `marked`. */
    ghost predicate First(h: Handler, marked: set<Handler>)
      reads this
    {
      h in list && h in marked && forall j, k :: 0 <= j < k < |list| && list[k] == h ==> list[j] !in marked
    }

    /** Unmark the handler to be run, or end the invocation. */
    method Scan() returns (h: Handler?)
      requires Linked()
      modifies this`asyncActive, list`ready
      ensures Linked() && Now() == AsyncProtocol.Scan(old(Now()))
      ensures h == match FirstReady(list, old(Marked())) case Some(f) => f case None => null
      ensures h == null ==> !asyncActive && Marked() == old(Marked()) == {}
      ensures h != null ==> asyncActive == old(asyncActive) && First(h, old(Marked())) && Marked() == old(Marked()) - {h}
    {
      ghost var s := Now();
      ghost var k;
      h, k := FindReady();
      if h == null {
        asyncActive := false;
        assert Marked() == s.ready;
      } else {
        FirstAtPlace(h, k);
        Unmark(h);
      }
    }

    lemma FirstAtPlace(h: Handler, k: nat)
      requires Linked() && k < |list| && list[k] == h && h.ready && forall j :: 0 <= j < k ==> !list[j].ready
      ensures First(h, Marked())
    {
    }

    method Unmark(h: Handler)
      requires Linked() && h in list
      modifies h`ready
      ensures Linked() && Marked() == old(Marked()) - {h} && !h.ready
    {
      h.ready := false;
    }

    /** The start of an invocation: its first handler to run, if there is any. `code` is
        the completion code that is passed on to it. */
    method Invoke(interp: bool, code: int) returns (h: Handler?, code': int)
      requires Valid()
      modifies this`asyncReady, this`asyncActive, list`ready
      ensures Valid() && Now() == Step(old(Now()), Event.Enter)
      ensures h == match Pick(old(Now()), Event.Enter) case Some(f) => f case None => null
      ensures !old(asyncReady) ==> h == null && Now() == old(Now())
      ensures old(asyncReady) ==> !asyncReady && (asyncActive <==> h != null)
      ensures old(asyncReady) && h == null ==> old(Marked()) == {}
      ensures h != null ==> First(h, old(Marked())) && Marked() == old(Marked()) - {h}
      ensures code' == if old(asyncReady) && !interp then 0 else code
    {
      ghost var s := Now();
      h, code' := null, code;
      if !asyncReady {
        return;
      }
      asyncReady, asyncActive := false, true;
      if !interp {
        code' := 0;
      }
      assert Now() == s.(asyncReady := false, asyncActive := true);
      h := Scan();
      StepKeepsGood(s, Event.Enter);
    }

    /** The handler has returned: go back to the start of the list. */
    method InvokeNext() returns (h: Handler?)
      requires Valid() && asyncActive
      modifies this`asyncActive, list`ready
      ensures Valid() && Now() == Step(old(Now()), Event.Again)
      ensures h == match Pick(old(Now()), Event.Again) case Some(f) => f case None => null
      ensures asyncActive <==> h != null
      ensures h == null ==> old(Marked()) == {}
      ensures h != null ==> First(h, old(Marked())) && Marked() == old(Marked()) - {h}
    {
      ghost var s := Now();
      h := Scan();
      StepKeepsGood(s, Event.Again);
    }

    /** Take a handler off the list; an empty list is put up with. */
    method AsyncDelete(h: Handler, sameThread: bool) returns (outcome: Outcome)
      requires Valid()
      modifies this, list
      ensures Valid()
      ensures outcome == if !sameThread then WrongThread else if old(list) == [] || h in old(list) then Done else NotFound
      ensures Now() == if sameThread && h in old(list) then Step(old(Now()), Delete(h)) else old(Now())
      ensures forall k :: sameThread && 0 <= k < |old(list)| && old(list)[k] == h ==> list == old(list)[..k] + old(list)[k + 1..]
      ensures (!sameThread || h !in old(list)) ==> list == old(list)
      ensures asyncReady == old(asyncReady) && asyncActive == old(asyncActive) && forall g :: g in list ==> g.ready == old(g.ready)
    {
      if !sameThread {
        return WrongThread;
      }
      if firstHandler != null {
        var prev, found;
        ghost var i;
        found, prev, i := Find(h);
        if !found {
          return NotFound;
        }
        Remove(h, prev, i);
      }
      outcome := Done;
    }

    /** Look for a handler, and for the one before it. */
    method Find(h: Handler) returns (found: bool, prev: Handler, ghost i: nat)
      requires Linked() && firstHandler != null
      ensures found <==> h in list
      ensures found ==> i < |list| && list[i] == h && prev == if i == 0 then h else list[i - 1]
    {
      var this': Handler? := firstHandler;
      prev, i := firstHandler, 0;
      while this' != null && this' != h
        invariant 0 <= i <= |list| && this' == NextOf(list, i - 1)
        invariant prev == if i == 0 then list[0] else list[i - 1]
        invariant h !in list[..i]
        decreases |list| - i
      {
        prev := this';
        assert this'.next == NextOf(list, i);
        this' := this'.next;
        i := i + 1;
      }
      found := this' != null;
      assert list[..|list|] == list;
    }

    /** Take the handler at place `i` off the list, and what it asked for with it. */
    method Remove(h: Handler, prev: Handler, ghost i: nat)
      requires Valid() && i < |list| && list[i] == h && prev == if i == 0 then h else list[i - 1]
      modifies this`firstHandler, this`lastHandler, this`list, list`next
      ensures Valid() && Now() == Step(old(Now()), Delete(h))
      ensures list == old(list)[..i] + old(list)[i + 1..] && forall k :: 0 <= k < |old(list)| && old(list)[k] == h ==> k == i
    {
      ghost var s := Now();
      Unlink(h, prev, i);
      WithoutAt(s.list, i);
      WithoutKeeps(s.list, h);
      assert Marked() == s.ready - {h};
      StepKeepsGood(s, Delete(h));
    }

    /** Take the handler at place `i` off the list. */
    method Unlink(h: Handler, prev: Handler, ghost i: nat)
      requires Linked() && i < |list| && list[i] == h && prev == if i == 0 then h else list[i - 1]
      modifies this`firstHandler, this`lastHandler, this`list, list`next
      ensures Linked() && list == Without(old(list), h)
    {
      if h == firstHandler {
        firstHandler := h.next;
      } else {
        prev.next := h.next;
      }
      if h == lastHandler {
        lastHandler := prev;
      }
      ghost var was := list;
      list := Without(list, h);
      CutOut(was, i);
      assert was[i].next == NextOf(was, i);
      forall k | 0 <= k < |list| ensures list[k].next == NextOf(list, k) {
        ghost var place := if k < i then k else k + 1;
        assert list[k] == was[place] && old(was[place].next) == NextOf(was, place);
        NextWithout(was, i, k);
      }
    }
  }

  /** What follows a handler once the one at place `i` is gone. */
  lemma NextWithout(was: seq<Handler>, i: nat, k: nat)
    requires i < |was| && Distinct(was) && k < |Without(was, was[i])|
    ensures NextOf(Without(was, was[i]), k) == NextOf(was, if k + 1 < i then k else k + 1)
  {
    CutOut(was, i);
  }

  lemma CutOut<H>(was: seq<H>, i: nat)
    requires i < |was| && Distinct(was)
    ensures var list := Without(was, was[i]);
            && |list| == |was| - 1 && Distinct(list)
            && (forall x :: x in list <==> x in was && x != was[i])
            && forall k :: 0 <= k < |list| ==> list[k] == was[if k < i then k else k + 1]
  {
    WithoutAt(was, i);
    WithoutKeeps(was, was[i]);
  }

  lemma {:induction false} WithoutAt<H>(list: seq<H>, i: nat)
    requires i < |list| && Distinct(list)
    ensures Without(list, list[i]) == list[..i] + list[i + 1..]
  {
    if i > 0 {
      var rest := list[1..];
      assert forall k :: 1 <= k < |list| ==> list[k] == rest[k - 1];
      WithoutAt(rest, i - 1);
    }
  }
}

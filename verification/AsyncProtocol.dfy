/** The protocol of asynchronous handlers, on values: one step for each section of code that
    holds the mutex, taken by any thread at any time. */
module AsyncProtocol {
  datatype Option<T> = None | Some(value: T)

  /** The handlers of a thread, in the order of their creation, and which are marked.
      `born` is every handler created so far. */
  datatype Async<H(==)> = Async(list: seq<H>, ready: set<H>, asyncReady: bool, asyncActive: bool, born: seq<H>)

  datatype Event<H> = Create(h: H) | Mark(h: H) | Enter | Again | Delete(h: H)

  /** The first marked handler of a list. */
  function FirstReady<H(==)>(list: seq<H>, ready: set<H>): (r: Option<H>)
    ensures r.Some? ==> r.value in list && r.value in ready
    ensures r.None? <==> forall h :: h in list ==> h !in ready
  {
    if list == [] then None else if list[0] in ready then Some(list[0]) else FirstReady(list[1..], ready)
  }

  lemma {:induction false} FirstAt<H>(list: seq<H>, ready: set<H>, i: nat)
    requires i <= |list| && (i < |list| ==> list[i] in ready) && forall k :: 0 <= k < i ==> list[k] !in ready
    ensures FirstReady(list, ready) == if i < |list| then Some(list[i]) else None
    decreases i
  {
    if i > 0 {
      FirstAt(list[1..], ready, i - 1);
    }
  }

  function Without<H(==)>(list: seq<H>, h: H): seq<H> {
    if list == [] then [] else if list[0] == h then list[1..] else [list[0]] + Without(list[1..], h)
  }

  /** The handler that an invocation runs next. */
  function Pick<H(==)>(s: Async<H>, ev: Event<H>): Option<H> {
    if ev.Again? || (ev.Enter? && s.asyncReady) then FirstReady(s.list, s.ready) else None
  }

  /** A scan unmarks the handler to be run, or ends the invocation. */
  function Scan<H(==)>(s: Async<H>): Async<H> {
    match FirstReady(s.list, s.ready)
    case Some(h) => s.(ready := s.ready - {h})
    case None => s.(asyncActive := false)
  }

  function Step<H(==)>(s: Async<H>, ev: Event<H>): Async<H> {
    match ev
    case Create(h) => s.(list := s.list + [h], born := s.born + [h])
    case Mark(h) => s.(ready := s.ready + {h}, asyncReady := s.asyncReady || !s.asyncActive)
    case Enter => if s.asyncReady then Scan(s.(asyncReady := false, asyncActive := true)) else s
    case Again => Scan(s)
    case Delete(h) => s.(list := Without(s.list, h), ready := s.ready - {h})
  }

  /** Handlers are new when they are created and alive when they are marked or deleted; a
      handler returns only to an invocation that is going on. */
  predicate Allowed<H(==)>(s: Async<H>, ev: Event<H>) {
    match ev
    case Create(h) => h !in s.born
    case Mark(h) => h in s.list
    case Enter => true
    case Again => s.asyncActive
    case Delete(h) => h in s.list
  }

  ghost predicate Distinct<H>(q: seq<H>) { forall i, j :: 0 <= i < j < |q| ==> q[i] != q[j] }

  /** `list` is in the order of `born`. */
  ghost predicate InOrder<H>(list: seq<H>, born: seq<H>) {
    && Distinct(born) && (forall h :: h in list ==> h in born)
    && forall i, j, a, b :: 0 <= i < j < |list| && 0 <= a < |born| && 0 <= b < |born| && born[a] == list[i] && born[b] == list[j] ==> a < b
  }

  /** While an invocation goes on, asyncReady is off; otherwise a mark turns it on. */
  ghost predicate Good<H>(s: Async<H>) {
    && InOrder(s.list, s.born) && (forall h :: h in s.ready ==> h in s.list)
    && (s.asyncActive ==> !s.asyncReady)
    && (!s.asyncActive && s.ready != {} ==> s.asyncReady)
  }

  lemma {:induction false} FirstIsEarliest<H>(list: seq<H>, ready: set<H>, i: nat)
    requires FirstReady(list, ready).Some? && i < |list| && list[i] in ready
    ensures exists k :: 0 <= k <= i && list[k] == FirstReady(list, ready).value
  {
    if list[0] !in ready {
      FirstIsEarliest(list[1..], ready, i - 1);
      var k :| 0 <= k <= i - 1 && list[1..][k] == FirstReady(list[1..], ready).value;
      assert list[k + 1] == FirstReady(list, ready).value;
    } else {
      assert list[0] == FirstReady(list, ready).value;
    }
  }

  lemma {:induction false} WithoutKeeps<H>(list: seq<H>, h: H)
    requires Distinct(list)
    ensures Distinct(Without(list, h)) && forall x :: x in Without(list, h) <==> x in list && x != h
  {
    if list != [] {
      var rest := list[1..];
      assert forall i :: 1 <= i < |list| ==> list[i] == rest[i - 1];
      assert list[0] !in rest;
      if list[0] != h {
        WithoutKeeps(rest, h);
        assert list[0] !in Without(rest, h);
      }
    }
  }

  lemma InOrderIsDistinct<H>(list: seq<H>, born: seq<H>)
    requires InOrder(list, born)
    ensures Distinct(list)
  {
    forall i, j | 0 <= i < j < |list| ensures list[i] != list[j] {
      assert list[i] in born;
      var a :| 0 <= a < |born| && born[a] == list[i];
      assert born[a] == list[j] ==> a < a;
    }
  }

  lemma {:induction false} WithoutInOrder<H>(list: seq<H>, born: seq<H>, h: H)
    requires InOrder(list, born)
    ensures InOrder(Without(list, h), born)
  {
    if list != [] {
      var rest := list[1..];
      InOrderTail(list, born);
      if list[0] != h {
        WithoutInOrder(rest, born, h);
        InOrderIsDistinct(rest, born);
        WithoutKeeps(rest, h);
        InOrderCons(list[0], rest, Without(rest, h), born);
      }
    }
  }

  lemma InOrderTail<H>(list: seq<H>, born: seq<H>)
    requires InOrder(list, born) && list != []
    ensures InOrder(list[1..], born)
  {
    var rest := list[1..];
    forall i, j, a, b | 0 <= i < j < |rest| && 0 <= a < |born| && 0 <= b < |born| && born[a] == rest[i] && born[b] == rest[j] ensures a < b {
      assert born[a] == list[i + 1] && born[b] == list[j + 1];
    }
  }

  lemma InOrderCons<H>(x: H, rest: seq<H>, fewer: seq<H>, born: seq<H>)
    requires InOrder([x] + rest, born) && InOrder(fewer, born) && forall y :: y in fewer ==> y in rest
    ensures InOrder([x] + fewer, born)
  {
    var all, q := [x] + rest, [x] + fewer;
    assert all[0] == x;
    forall i, j, a, b | 0 <= i < j < |q| && 0 <= a < |born| && 0 <= b < |born| && born[a] == q[i] && born[b] == q[j] ensures a < b {
      if i == 0 {
        assert q[j] in fewer;
        var k :| 0 <= k < |rest| && rest[k] == q[j];
        assert all[k + 1] == q[j];
      } else {
        assert born[a] == fewer[i - 1] && born[b] == fewer[j - 1];
      }
    }
  }

  lemma CreatedInOrder<H>(list: seq<H>, born: seq<H>, h: H)
    requires InOrder(list, born) && h !in born
    ensures InOrder(list + [h], born + [h])
  {
    var q, more := list + [h], born + [h];
    forall i, j, a, b | 0 <= i < j < |q| && 0 <= a < |more| && 0 <= b < |more| && more[a] == q[i] && more[b] == q[j] ensures a < b {
      assert q[i] == list[i] && list[i] in born;
    }
  }

  /** Every step keeps the invariant. */
  lemma StepKeepsGood<H>(s: Async<H>, ev: Event<H>)
    requires Good(s) && Allowed(s, ev)
    ensures Good(Step(s, ev))
  {
    match ev
    case Create(h) => CreatedInOrder(s.list, s.born, h);
    case Mark(h) =>
    case Enter =>
    case Again =>
    case Delete(h) =>
      InOrderIsDistinct(s.list, s.born);
      WithoutInOrder(s.list, s.born, h);
      WithoutKeeps(s.list, h);
  }

  /** The handler that is run is the earliest created of those that are marked. */
  lemma PickIsEarliest<H>(s: Async<H>, ev: Event<H>, a: nat, b: nat)
    requires Good(s) && Pick(s, ev).Some?
    requires a < |s.born| && b < |s.born| && s.born[a] == Pick(s, ev).value && s.born[b] in s.ready
    ensures a <= b
  {
    assert s.born[b] in s.list;
    var i :| 0 <= i < |s.list| && s.list[i] == s.born[b];
    FirstIsEarliest(s.list, s.ready, i);
    var k :| 0 <= k <= i && s.list[k] == FirstReady(s.list, s.ready).value;
    assert k < i ==> a < b;
  }

  /** An invocation cannot be entered while one goes on. */
  lemma NoNesting<H>(s: Async<H>)
    requires Good(s) && s.asyncActive
    ensures Step(s, Enter) == s && Pick(s, Enter) == None
  {
  }

  /** An invocation that ends leaves no handler marked. */
  lemma EndsWithNoneReady<H>(s: Async<H>, ev: Event<H>)
    requires Good(s) && Allowed(s, ev) && (ev.Enter? || ev.Again?) && !Step(s, ev).asyncActive
    ensures Step(s, ev).ready == {}
  {
    assert forall h :: h in s.ready ==> h in s.list;
  }

  // ----- runs

  ghost predicate Run<H>(states: seq<Async<H>>, evs: seq<Event<H>>) {
    && |states| == |evs| + 1
    && forall i :: 0 <= i < |evs| ==> Allowed(states[i], evs[i]) && states[i + 1] == Step(states[i], evs[i])
  }

  lemma {:induction false} RunKeepsGood<H>(states: seq<Async<H>>, evs: seq<Event<H>>, n: nat)
    requires Run(states, evs) && Good(states[0]) && n < |states|
    ensures Good(states[n])
  {
    if n > 0 {
      RunKeepsGood(states, evs, n - 1);
      StepKeepsGood(states[n - 1], evs[n - 1]);
    }
  }

  ghost predicate Served<H>(states: seq<Async<H>>, evs: seq<Event<H>>, h: H) {
    exists i :: 0 <= i < |evs| && i < |states| && Pick(states[i], evs[i]) == Some(h)
  }

  /** A marked handler stays marked until it is run or deleted. */
  lemma {:induction false} MarkStays<H>(states: seq<Async<H>>, evs: seq<Event<H>>, h: H, n: nat)
    requires Run(states, evs) && n < |states| && h in states[0].ready
    requires Delete(h) !in evs && !Served(states, evs, h)
    ensures h in states[n].ready
  {
    if n > 0 {
      MarkStays(states, evs, h, n - 1);
      var s, ev := states[n - 1], evs[n - 1];
      assert ev in evs;
      assert Pick(s, ev) != Some(h);
    }
  }

  lemma MarkedIsServed<H>(states: seq<Async<H>>, evs: seq<Event<H>>, h: H)
    requires Run(states, evs) && Good(states[0]) && h in states[0].ready && Delete(h) !in evs
    requires !states[|evs|].asyncActive && !states[|evs|].asyncReady
    ensures Served(states, evs, h)
  {
    RunKeepsGood(states, evs, |evs|);
    assert states[|evs|].ready == {};
    if !Served(states, evs, h) {
      MarkStays(states, evs, h, |evs|);
    }
  }

  /** No mark is lost: when nothing is going on and nothing is asked for any more, every handler
      that was marked has been run since, unless it was deleted. */
  lemma NoLostMarks<H>(states: seq<Async<H>>, evs: seq<Event<H>>, h: H, i: nat)
    requires Run(states, evs) && Good(states[0]) && i < |evs| && evs[i] == Mark(h)
    requires forall k :: i < k < |evs| ==> evs[k] != Delete(h)
    requires !states[|evs|].asyncActive && !states[|evs|].asyncReady
    ensures exists j :: i < j < |evs| && Pick(states[j], evs[j]) == Some(h)
  {
    var later, rest := states[i + 1..], evs[i + 1..];
    RunKeepsGood(states, evs, i + 1);
    assert states[i + 1] == Step(states[i], evs[i]);
    forall k | 0 <= k < |rest| ensures Allowed(later[k], rest[k]) && later[k + 1] == Step(later[k], rest[k]) {
      assert later[k] == states[i + 1 + k] && rest[k] == evs[i + 1 + k];
    }
    MarkedIsServed(later, rest, h);
    var k :| 0 <= k < |rest| && k < |later| && Pick(later[k], rest[k]) == Some(h);
    assert Pick(states[i + 1 + k], evs[i + 1 + k]) == Some(h);
  }

  /** Nor is a handler run without a mark: between two runs of it there is a mark. */
  lemma {:induction false} RunsAreMarked<H>(states: seq<Async<H>>, evs: seq<Event<H>>, h: H, i: nat, j: nat)
    requires Run(states, evs) && Good(states[0]) && i < j < |evs|
    requires Pick(states[i], evs[i]) == Some(h) == Pick(states[j], evs[j])
    ensures exists m :: i < m < j && evs[m] == Mark(h)
  {
    if forall m :: i < m < j ==> evs[m] != Mark(h) {
      StaysUnmarked(states, evs, h, i, j);
    }
  }

  lemma {:induction false} StaysUnmarked<H>(states: seq<Async<H>>, evs: seq<Event<H>>, h: H, i: nat, n: nat)
    requires Run(states, evs) && i < n <= |evs| && Pick(states[i], evs[i]) == Some(h)
    requires forall m :: i < m < n ==> evs[m] != Mark(h)
    ensures h !in states[n].ready
  {
    if n > i + 1 {
      StaysUnmarked(states, evs, h, i, n - 1);
      assert evs[n - 1] != Mark(h);
    }
  }
}

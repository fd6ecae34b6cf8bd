/** Runs of the interpreter with coroutines, and what a call into a coroutine does to the level. */
module CoroutineCalls {
  import opened CoroutineLevels

  // ----- runs

  ghost predicate Run(ws: seq<World>, evs: seq<Event>) {
    && |ws| == |evs| + 1
    && forall i :: 0 <= i < |evs| ==> Allowed(ws[i], evs[i]) && ws[i + 1] == Step(ws[i], evs[i])
  }

  /** Whatever the interleaving, the accounts are kept. */
  lemma {:induction false} RunGood(ws: seq<World>, evs: seq<Event>, n: nat)
    requires Run(ws, evs) && Good(ws[0]) && n < |ws|
    ensures Good(ws[n])
  {
    if n > 0 {
      RunGood(ws, evs, n - 1);
      StepGood(ws[n - 1], evs[n - 1]);
    }
  }

  /** The environments of `w0` wait for coroutine `c`, which the last of them has resumed. */
  ghost predicate Waiting(w0: World, w: World, c: nat) {
    && |w.chain| > |w0.chain| && w.chain[..|w0.chain|] == w0.chain && w.chain[|w0.chain|] == c
    && forall e :: e in w0.chain ==> WaitsIn(w0, w, c, e)
  }

  predicate WaitsIn(w0: World, w: World, c: nat, e: nat) {
    Known(w0, e) && Known(w, e) && w.lead[e] == w0.lead[e]
    && w.stacks[e] == if e == w0.ee then [Caller(c)] + w0.stacks[e] else w0.stacks[e]
  }

  /** Coroutine `c` is entered: resumed, or made and at once resumed. */
  predicate Enters(w: World, ev: Event, c: nat) {
    && ((ev.Activate? && Suspended(w, c)) || (ev.Create? && c !in w.stacks))
    && ev.c == c && ev.here != NULL
  }

  lemma Entered(w: World, ev: Event, c: nat)
    requires Good(w) && Allowed(w, ev) && Enters(w, ev, c)
    ensures Waiting(w, Step(w, ev), c)
  {
    var w' := Step(w, ev);
    if ev.Create? { MadeGood(w, c); } else { NotActive(w, c); }
    forall e | e in w.chain ensures WaitsIn(w, w', c, e) { assert Known(w, e); }
  }

  /** What waits is not touched. */
  lemma StillWaiting(w0: World, w: World, c: nat, ev: Event)
    requires Good(w) && Allowed(w, ev) && Waiting(w0, w, c) && |Step(w, ev).chain| > |w0.chain|
    ensures Waiting(w0, Step(w, ev), c)
  {
    var w', m := Step(w, ev), |w0.chain|;
    assert w.chain[..m] == w0.chain;
    forall e | e in w0.chain ensures WaitsIn(w0, w', c, e) {
      assert WaitsIn(w0, w, c, e);
      var i :| 0 <= i < m && w0.chain[i] == e;
      assert w.chain[i] == e && e in w.chain;
      if ev.Inject? { NotActive(w, ev.c); }
      if ev.Create? { NotActive(w, ev.c); }
      if ev.Leave? { LeaveOwn(w); }
    }
  }

  /** The chain gets shorter by one at a time, and only the one who called is affected. */
  lemma ChainShorter(w: World, ev: Event)
    requires Good(w) && Allowed(w, ev) && |Step(w, ev).chain| < |w.chain|
    ensures var w', last := Step(w, ev), |w.chain| - 1;
            && last >= 1 && w'.chain == w.chain[..last] && w.chain[last] == w.ee && w.ee in w.lead
            && forall e :: e in w.chain && e != w.ee ==>
              && Known(w, e) && Known(w', e) && w'.stacks[e] == w.stacks[e]
              && w'.lead[e] == w.lead[e] + if ev.Leave? && e == w.chain[last - 1] then w.lead[w.ee] else 0
  {
    assert w.ee in w.chain && Known(w, w.ee);
    if ev.Leave? { LeaveOwn(w); }
    forall e | e in w.chain ensures Known(w, e) {
    }
  }

  /** What the current environment leaves to its caller. */
  function LeftBy(w: World, ev: Event): int { if ev.Leave? && w.ee in w.lead then w.lead[w.ee] else 0 }

  /** Control comes back to the caller, with its commands as they were. */
  lemma ComesBack(w0: World, w: World, c: nat, ev: Event)
    requires Good(w0) && Good(w) && Allowed(w, ev) && Waiting(w0, w, c) && |Step(w, ev).chain| <= |w0.chain|
    ensures var w' := Step(w, ev);
            && w.ee == c && w'.chain == w0.chain && w0.ee in w0.chain && AllKnown(w')
            && forall e :: e in w0.chain ==> BackIn(w0, w', c, e, LeftBy(w, ev))
  {
    var w', m := Step(w, ev), |w0.chain|;
    ChainShorter(w, ev);
    assert w.chain[..m] == w0.chain;
    assert w0.ee == w0.chain[m - 1] && w0.ee in w0.chain && Known(w0, w0.ee);
    assert w.ee == c && w'.chain == w0.chain;
    forall e | e in w0.chain ensures BackIn(w0, w', c, e, LeftBy(w, ev)) {
      NotLast(w, m, e);
      OneComesBack(w0, w', c, e, w, LeftBy(w, ev));
    }
  }

  lemma NotLast(w: World, m: nat, e: nat)
    requires Good(w) && |w.chain| == m + 1 && e in w.chain[..m]
    ensures e in w.chain && e != w.ee
  {
    var i :| 0 <= i < m && w.chain[..m][i] == e;
    assert w.chain[i] == e && w.chain[m] == w.ee;
  }

  lemma OneComesBack(w0: World, w': World, c: nat, e: nat, w: World, more: int)
    requires WaitsIn(w0, w, c, e) && Known(w', e) && w'.stacks[e] == w.stacks[e]
    requires w'.lead[e] == w.lead[e] + if e == w0.ee then more else 0
    ensures BackIn(w0, w', c, e, more)
  {
    CommandsPush(Caller(c), w0.stacks[e]);
  }

  /** An environment that has waited has its commands back; `more` is left to the one that called. */
  predicate BackIn(w0: World, w': World, c: nat, e: nat, more: int) {
    && Known(w0, e) && Known(w', e)
    && w'.stacks[e] == (if e == w0.ee then [Caller(c)] + w0.stacks[e] else w0.stacks[e])
    && Own(w', e) == Own(w0, e) + if e == w0.ee then more else 0
  }

  /** When control comes back, the caller's level is what it was; a coroutine that comes to its
      end leaves what it is ahead of its commands. */
  lemma CallReturns(w0: World, w: World, c: nat, ev: Event)
    requires Good(w0) && Good(w) && Allowed(w, ev) && Waiting(w0, w, c) && |Step(w, ev).chain| <= |w0.chain|
    ensures var w' := Step(w, ev);
            && w.ee == c && c in w.lead && w'.chain == w0.chain
            && w'.numLevels == w0.numLevels + if ev.Leave? then w.lead[c] else 0
  {
    ComesBack(w0, w, c, ev);
    StepGood(w, ev);
    DepthBack(w0, Step(w, ev), c, LeftBy(w, ev));
  }

  lemma DepthBack(w0: World, w': World, c: nat, more: int)
    requires AllKnown(w0) && ChainGood(w0) && AllKnown(w') && w'.chain == w0.chain
    requires forall e :: e in w0.chain ==> BackIn(w0, w', c, e, more)
    ensures Depth(w', |w0.chain|) == Depth(w0, |w0.chain|) + more
  {
    var m := |w0.chain|;
    forall i | 0 <= i < m - 1 ensures Own(w0, w0.chain[i]) == Own(w', w0.chain[i]) {
      assert w0.chain[i] in w0.chain && BackIn(w0, w', c, w0.chain[i], more);
    }
    DepthsKept(w0, w', m - 1);
    assert w0.chain[m - 1] == w0.ee && w0.ee in w0.chain && BackIn(w0, w', c, w0.ee, more);
  }

  /** A call into a coroutine, nested or not, up to the first time control comes back. */
  ghost predicate Call(ws: seq<World>, evs: seq<Event>, c: nat) {
    && Run(ws, evs) && |evs| >= 2 && Enters(ws[0], evs[0], c)
    && (forall i :: 0 < i < |evs| ==> |ws[i].chain| > |ws[0].chain|)
    && |ws[|evs|].chain| <= |ws[0].chain|
  }

  lemma {:induction false} CallWaits(ws: seq<World>, evs: seq<Event>, c: nat, n: nat)
    requires Call(ws, evs, c) && Good(ws[0]) && 0 < n < |evs|
    ensures Waiting(ws[0], ws[n], c) && Good(ws[n])
  {
    RunGood(ws, evs, n);
    if n == 1 {
      Entered(ws[0], evs[0], c);
    } else {
      CallWaits(ws, evs, c, n - 1);
      StillWaiting(ws[0], ws[n - 1], c, evs[n - 1]);
    }
  }

  // ----- where a coroutine may yield

  /** While `c` is active, nothing changes where the C stack was when it was resumed. */
  lemma StackLevelStays(w0: World, w: World, c: nat, ev: Event)
    requires Good(w0) && Good(w) && Allowed(w, ev) && Waiting(w0, w, c) && |Step(w, ev).chain| > |w0.chain|
    ensures c in w.coroutines && c in Step(w, ev).coroutines && Step(w, ev).coroutines[c].stackLevel == w.coroutines[c].stackLevel
  {
    var m := |w0.chain|;
    assert ActiveGood(w, m);
    assert w.ee == c ==> |w.chain| == m + 1;
  }

  lemma {:induction false} StackLevelIsKept(ws: seq<World>, evs: seq<Event>, c: nat, n: nat)
    requires Run(ws, evs) && Good(ws[0]) && 0 < n <= |evs| && Enters(ws[0], evs[0], c)
    requires forall i :: 0 < i <= n ==> |ws[i].chain| > |ws[0].chain|
    ensures Waiting(ws[0], ws[n], c) && Good(ws[n]) && c in ws[n].coroutines && ws[n].coroutines[c].stackLevel == evs[0].here
  {
    RunGood(ws, evs, n);
    if n == 1 {
      Entered(ws[0], evs[0], c);
    } else {
      StackLevelIsKept(ws, evs, c, n - 1);
      StillWaiting(ws[0], ws[n - 1], c, evs[n - 1]);
      StackLevelStays(ws[0], ws[n - 1], c, evs[n - 1]);
    }
  }

  /** Whatever has happened since, a coroutine that has been resumed and is running can yield exactly
      if the C stack is where it was when it was resumed; its caller then goes on. */
  lemma YieldsWhereResumed(ws: seq<World>, evs: seq<Event>, c: nat, here: int)
    requires Run(ws, evs) && Good(ws[0]) && |evs| > 0 && Enters(ws[0], evs[0], c)
    requires forall i :: 0 < i <= |evs| ==> |ws[i].chain| > |ws[0].chain|
    requires ws[|evs|].ee == c && here != NULL
    ensures var w := ws[|evs|];
            && Allowed(w, Activate(c, here))
            && (if here == evs[0].here then Step(w, Activate(c, here)).ee == ws[0].ee else Step(w, Activate(c, here)) == w)
  {
    var n, m := |evs|, |ws[0].chain|;
    var w := ws[n];
    StackLevelIsKept(ws, evs, c, n);
    assert w.chain[..m] == ws[0].chain;
    assert w.chain[|w.chain| - 1] == c == w.chain[m];
    assert |w.chain| == m + 1;
    assert ActiveGood(w, m);
    assert w.chain[m - 1] == ws[0].chain[m - 1];
  }

  // ----- when a call keeps the level

  /** How far the stored depth of a suspended coroutine is ahead of its commands. */
  function Surplus(w: World, c: nat): int
    requires c in w.coroutines && c in w.stacks
  {
    w.coroutines[c].auxNumLevels + 1 - Commands(w.stacks[c])
  }

  lemma SurplusIsLead(w: World, c: nat)
    requires Good(w) && c in w.coroutines && c !in w.chain
    ensures Known(w, c) && Surplus(w, c) == w.lead[c]
  {
    assert SuspendedGood(w, c);
  }

  /** Coroutine `c`, if it is there, stores just as many levels as it has commands. */
  predicate Matched(w: World, c: nat) {
    c in w.coroutines && c in w.stacks ==> Surplus(w, c) == 0
  }

  predicate OthersMatched(w: World, c: nat) {
    forall d :: d in w.coroutines && d != c && Suspended(w, d) ==> Matched(w, d)
  }

  /** During a call without injections, `c` is ahead by `a` as before, and nothing else that is
      not waiting is ahead. */
  ghost predicate LeadsKept(w0: World, w: World, c: nat, a: int) {
    c in w.lead && w.lead[c] == a && forall d :: d in w.lead && d !in w0.chain && d != c ==> w.lead[d] == 0
  }

  lemma LeadsStayKept(w0: World, w: World, c: nat, a: int, ev: Event)
    requires Good(w) && Allowed(w, ev) && !ev.Inject? && LeadsKept(w0, w, c, a)
    requires Waiting(w0, w, c) && |Step(w, ev).chain| > |w0.chain|
    ensures LeadsKept(w0, Step(w, ev), c, a)
  {
    assert w.chain[|w0.chain|] in w.chain && Known(w, c);
    if ev.Leave? { LeaverNotWaiting(w0, w, c); }
  }

  /** A coroutine that ends below `c` leaves its lead to `c` or to one that is not waiting. */
  lemma LeaverNotWaiting(w0: World, w: World, c: nat)
    requires Good(w) && Allowed(w, Leave) && Waiting(w0, w, c) && |Step(w, Leave).chain| > |w0.chain|
    ensures w.ee != c && w.ee !in w0.chain && w.coroutines[w.ee].callerEE !in w0.chain
  {
    var m, last := |w0.chain|, |w.chain| - 1;
    assert ActiveGood(w, last);
    assert w.chain[..m] == w0.chain && w.chain[last] == w.ee && last > m;
    forall i | 0 <= i < m ensures w0.chain[i] != w.ee && w0.chain[i] != w.chain[last - 1] { assert w0.chain[i] == w.chain[i]; }
  }

  lemma FirstLeads(w: World, ev: Event, c: nat)
    requires Good(w) && Allowed(w, ev) && Enters(w, ev, c) && OthersMatched(w, c)
    ensures LeadsKept(w, Step(w, ev), c, if c in w.lead then w.lead[c] else 0)
    ensures Matched(w, c) <==> c !in w.lead || w.lead[c] == 0
  {
    if ev.Create? { MadeGood(w, c); } else { NotActive(w, c); SurplusIsLead(w, c); }
    forall d | d in w.lead && d !in w.chain && d != c ensures w.lead[d] == 0 {
      SurplusIsLead(w, d);
      assert SuspendedGood(w, d) && Matched(w, d);
    }
  }

  lemma {:induction false} CallLeads(ws: seq<World>, evs: seq<Event>, c: nat, n: nat)
    requires Call(ws, evs, c) && Good(ws[0]) && OthersMatched(ws[0], c) && 0 < n < |evs|
    requires forall i :: 0 <= i < |evs| ==> !evs[i].Inject?
    ensures LeadsKept(ws[0], ws[n], c, if c in ws[0].lead then ws[0].lead[c] else 0)
  {
    if n == 1 {
      FirstLeads(ws[0], evs[0], c);
    } else {
      CallLeads(ws, evs, c, n - 1);
      CallWaits(ws, evs, c, n - 1);
      assert ws[n] == Step(ws[n - 1], evs[n - 1]);
      LeadsStayKept(ws[0], ws[n - 1], c, if c in ws[0].lead then ws[0].lead[c] else 0, evs[n - 1]);
    }
  }

  /** A call during which nothing is injected leaves the caller's level as it was, if and only if
      it comes back by a yield or the coroutine stored, before the call, just as many levels as
      it had commands. The other coroutines that could be called on the way are to do so. */
  lemma CallKeepsLevel(ws: seq<World>, evs: seq<Event>, c: nat)
    requires Call(ws, evs, c) && Good(ws[0]) && OthersMatched(ws[0], c)
    requires forall i :: 0 <= i < |evs| ==> !evs[i].Inject?
    ensures var n := |evs|;
            && ws[n].chain == ws[0].chain
            && (ws[n].numLevels == ws[0].numLevels <==> !evs[n - 1].Leave? || Matched(ws[0], c))
  {
    var n := |evs|;
    CallWaits(ws, evs, c, n - 1);
    CallReturns(ws[0], ws[n - 1], c, evs[n - 1]);
    CallLeads(ws, evs, c, n - 1);
    FirstLeads(ws[0], evs[0], c);
  }

  // ----- all leads together

  /** The sum of what is in a map. */
  ghost function Total(m: map<nat, int>): int
    decreases |m|
  {
    if m == map[] then 0
    else var k :| k in m; m[k] + Total(m - {k})
  }

  lemma {:induction false} TotalWithout(m: map<nat, int>, k: nat)
    requires k in m
    ensures Total(m) == m[k] + Total(m - {k})
    decreases |m|
  {
    var k' :| k' in m && Total(m) == m[k'] + Total(m - {k'});
    if k' != k {
      TotalWithout(m - {k'}, k);
      TotalWithout(m - {k}, k');
      assert m - {k'} - {k} == m - {k} - {k'};
    }
  }

  lemma TotalSet(m: map<nat, int>, k: nat, v: int)
    ensures Total(m[k := v]) == Total(m) + v - if k in m then m[k] else 0
  {
    TotalWithout(m[k := v], k);
    if k in m {
      TotalWithout(m, k);
    }
    assert m[k := v] - {k} == m - {k};
    assert k !in m ==> m - {k} == m;
  }

  /** No step changes how far all environments together are ahead. */
  lemma StepTotal(w: World, ev: Event)
    requires Good(w) && Allowed(w, ev)
    ensures Total(Step(w, ev).lead) == Total(w.lead)
  {
    match ev
    case Create(c, _) => TotalSet(w.lead, c, 0);
    case Inject(c) => InjectTotal(w, c);
    case Leave => LeaveTotal(w);
    case _ =>
  }

  lemma InjectTotal(w: World, c: nat)
    requires Good(w) && Allowed(w, Inject(c))
    ensures Total(Step(w, Inject(c)).lead) == Total(w.lead)
  {
    NotActive(w, c);
    assert w.ee in w.chain && Known(w, w.ee);
    Shifted(w.lead, w.ee, c, 1);
  }

  lemma LeaveTotal(w: World)
    requires Good(w) && Allowed(w, Leave)
    ensures Total(Step(w, Leave).lead) == Total(w.lead)
  {
    LeaveOwn(w);
    var last, caller := |w.chain| - 1, w.coroutines[w.ee].callerEE;
    assert caller == w.chain[last - 1] && w.ee == w.chain[last];
    var m := w.lead[caller := w.lead[caller] + w.lead[w.ee]];
    TotalSet(w.lead, caller, w.lead[caller] + w.lead[w.ee]);
    TotalWithout(m, w.ee);
  }

  lemma Shifted(m: map<nat, int>, e: nat, c: nat, d: int)
    requires e in m && c in m && e != c
    ensures Total(m[e := m[e] + d][c := m[c] - d]) == Total(m)
  {
    TotalSet(m, e, m[e] + d);
    TotalSet(m[e := m[e] + d], c, m[c] - d);
  }

  lemma {:induction false} RunTotal(ws: seq<World>, evs: seq<Event>, n: nat)
    requires Run(ws, evs) && Good(ws[0]) && n < |ws|
    ensures Total(ws[n].lead) == Total(ws[0].lead)
  {
    if n > 0 {
      RunTotal(ws, evs, n - 1);
      RunGood(ws, evs, n - 1);
      StepTotal(ws[n - 1], evs[n - 1]);
    }
  }

  /** What suspended coroutines store beyond their commands. */
  ghost function Outstanding(w: World): int {
    Total(map c | c in w.coroutines && c in w.stacks && Suspended(w, c) :: Surplus(w, c))
  }

  function CommandsOf(w: World, e: nat): int
    requires Known(w, e)
  {
    Commands(w.stacks[e]) - if e == ROOT then 0 else 1
  }

  /** The commands of the first `k` environments that are active, less those that made them. */
  ghost function Begun(w: World, k: nat): int
    requires k <= |w.chain| && AllKnown(w)
  {
    if k == 0 then 0 else Begun(w, k - 1) + CommandsOf(w, w.chain[k - 1])
  }

  /** The leads of all environments but the active ones from the `k`th on. */
  ghost function Rest(w: World, k: nat): map<nat, int>
    requires k <= |w.chain|
  {
    map e | e in w.lead && e !in w.chain[k..] :: w.lead[e]
  }

  lemma RestStep(w: World, k: nat)
    requires k < |w.chain| && w.chain[k] in w.lead && NoneTwice(w.chain)
    ensures Total(Rest(w, k + 1)) == w.lead[w.chain[k]] + Total(Rest(w, k))
  {
    var e := w.chain[k];
    assert w.chain[k..] == [e] + w.chain[k + 1..];
    assert e !in w.chain[k + 1..];
    assert Rest(w, k + 1) - {e} == Rest(w, k);
    TotalWithout(Rest(w, k + 1), e);
  }

  /** How much the first `k` environments of the chain add beyond their commands. */
  ghost function Beyond(w: World, k: nat): int
    requires k <= |w.chain| && AllKnown(w)
  {
    Depth(w, k) - Begun(w, k)
  }

  lemma BeyondStep(w: World, k: nat)
    requires k < |w.chain| && AllKnown(w)
    ensures w.chain[k] in w.lead && Beyond(w, k + 1) == Beyond(w, k) + w.lead[w.chain[k]]
  {
    var e := w.chain[k];
    assert e in w.chain && Known(w, e);
    assert Own(w, e) == CommandsOf(w, e) + w.lead[e];
  }

  ghost function Gap(w: World, k: nat): int
    requires k <= |w.chain| && AllKnown(w)
  {
    Beyond(w, k) - Total(Rest(w, k))
  }

  lemma GapStep(w: World, k: nat)
    requires k < |w.chain| && AllKnown(w) && NoneTwice(w.chain)
    ensures Gap(w, k + 1) == Gap(w, k)
  {
    BeyondStep(w, k);
    RestStep(w, k);
  }

  lemma {:induction false} GapSame(w: World, k: nat)
    requires k <= |w.chain| && AllKnown(w) && NoneTwice(w.chain)
    ensures Gap(w, k) == Gap(w, 0)
  {
    if k > 0 {
      GapSame(w, k - 1);
      GapStep(w, k - 1);
    }
  }

  lemma OutstandingIsRest(w: World)
    requires Good(w)
    ensures Outstanding(w) == Total(Rest(w, 0))
  {
    var rest := Rest(w, 0);
    var out := map c | c in w.coroutines && c in w.stacks && Suspended(w, c) :: Surplus(w, c);
    assert w.chain[0..] == w.chain;
    forall c | c in rest ensures c in out && out[c] == rest[c] {
      assert w.chain[0] in w.chain;
      SurplusIsLead(w, c);
      assert SuspendedGood(w, c);
    }
    forall c | c in out ensures c in rest {
      NotActive(w, c);
    }
    assert out == rest;
  }

  /** The level is that of the commands that have begun in the active environments, less what
      suspended coroutines store beyond their own. */
  lemma LevelIsCommands(w: World)
    requires Good(w) && Total(w.lead) == 0
    ensures w.numLevels == Begun(w, |w.chain|) - Outstanding(w)
  {
    var n := |w.chain|;
    assert Rest(w, n) == w.lead;
    GapSame(w, n);
    OutstandingIsRest(w);
  }

  /** Whatever is injected before or during a call, the caller's level and what suspended
      coroutines store beyond their commands add up to the same before and after it. */
  lemma CallConserves(ws: seq<World>, evs: seq<Event>, c: nat)
    requires Call(ws, evs, c) && Good(ws[0]) && Total(ws[0].lead) == 0
    ensures var n := |evs|; ws[n].numLevels + Outstanding(ws[n]) == ws[0].numLevels + Outstanding(ws[0])
  {
    var n := |evs|;
    CallWaits(ws, evs, c, n - 1);
    RunGood(ws, evs, n);
    RunTotal(ws, evs, n);
    LevelIsCommands(ws[0]);
    LevelIsCommands(ws[n]);
    ComesBack(ws[0], ws[n - 1], c, evs[n - 1]);
    SameBegun(ws[0], ws[n], c, LeftBy(ws[n - 1], evs[n - 1]), |ws[0].chain|);
  }

  lemma {:induction false} SameBegun(w0: World, w': World, c: nat, more: int, k: nat)
    requires AllKnown(w0) && AllKnown(w') && w'.chain == w0.chain && k <= |w0.chain|
    requires forall e :: e in w0.chain ==> BackIn(w0, w', c, e, more)
    ensures Begun(w0, k) == Begun(w', k)
  {
    if k > 0 {
      SameBegun(w0, w', c, more, k - 1);
      var e := w0.chain[k - 1];
      assert e in w0.chain && BackIn(w0, w', c, e, more);
      CommandsPush(Caller(c), w0.stacks[e]);
    }
  }

  // ----- the history of a lead

  /** What events say of environment `e`: the commands it has injected, less those injected into
      it, and what coroutines that ended under it left behind. */
  ghost function History(ws: seq<World>, evs: seq<Event>, n: nat, e: nat): int
    requires |ws| == |evs| + 1 && n <= |evs|
  {
    if n == 0 then 0 else
      var was, w := History(ws, evs, n - 1, e), ws[n - 1];
      match evs[n - 1]
      case Inject(c) => was + (if e == w.ee then 1 else 0) - if e == c then 1 else 0
      case Leave => was + if w.ee in w.coroutines && e == w.coroutines[w.ee].callerEE then History(ws, evs, n - 1, w.ee) else 0
      case Create(c, _) => if e == c then 0 else was
      case _ => was
  }

  lemma {:induction false} LeadIsHistory(ws: seq<World>, evs: seq<Event>, n: nat, e: nat)
    requires Run(ws, evs) && ws[0] == Start() && n <= |evs| && e in ws[n].lead
    ensures ws[n].lead[e] == History(ws, evs, n, e)
    decreases n
  {
    if n > 0 {
      StartGood();
      RunGood(ws, evs, n - 1);
      var w := ws[n - 1];
      LeadStep(w, evs[n - 1], e);
      if evs[n - 1].Leave? { LeadIsHistory(ws, evs, n - 1, w.ee); }
      if e in w.lead { LeadIsHistory(ws, evs, n - 1, e); }
    }
  }

  /** How a step changes the lead of an environment. */
  lemma LeadStep(w: World, ev: Event, e: nat)
    requires Good(w) && Allowed(w, ev) && e in Step(w, ev).lead
    ensures w.ee in w.lead && ((ev.Create? && e == ev.c) || e in w.lead)
    ensures Step(w, ev).lead[e] ==
      match ev
      case Inject(c) => w.lead[e] + (if e == w.ee then 1 else 0) - if e == c then 1 else 0
      case Leave => w.lead[e] + if w.ee in w.coroutines && e == w.coroutines[w.ee].callerEE then w.lead[w.ee] else 0
      case Create(c, _) => if e == c then 0 else w.lead[e]
      case _ => w.lead[e]
  {
    assert w.ee in w.chain;
    if ev.Inject? { NotActive(w, ev.c); }
    if ev.Leave? { LeaveOwn(w); }
  }

  /** What a suspended coroutine stores beyond its commands is what was injected by it, less what
      was injected into it, and what was left to it. */
  lemma SurplusIsHistory(ws: seq<World>, evs: seq<Event>, c: nat)
    requires Run(ws, evs) && ws[0] == Start() && Suspended(ws[|evs|], c)
    ensures c in ws[|evs|].stacks && Surplus(ws[|evs|], c) == History(ws, evs, |evs|, c)
  {
    StartGood();
    RunGood(ws, evs, |evs|);
    NotActive(ws[|evs|], c);
    SurplusIsLead(ws[|evs|], c);
    LeadIsHistory(ws, evs, |evs|, c);
  }

  // ----- without injected commands

  lemma {:induction false} NoInjections(ws: seq<World>, evs: seq<Event>, n: nat, e: nat)
    requires |ws| == |evs| + 1 && n <= |evs| && forall i :: 0 <= i < n ==> !evs[i].Inject?
    ensures History(ws, evs, n, e) == 0
    decreases n
  {
    if n > 0 {
      NoInjections(ws, evs, n - 1, e);
      NoInjections(ws, evs, n - 1, ws[n - 1].ee);
    }
  }

  /** In a run from the start in which no commands are injected, every call keeps the caller's level. */
  lemma PlainCallKeepsLevel(ws: seq<World>, evs: seq<Event>, k: nat, c: nat)
    requires Run(ws, evs) && ws[0] == Start() && k <= |evs| && Call(ws[k..], evs[k..], c)
    requires forall i :: 0 <= i < |evs| ==> !evs[i].Inject?
    ensures ws[|evs|].numLevels == ws[k].numLevels
  {
    StartGood();
    RunGood(ws, evs, k);
    forall d | Suspended(ws[k], d) ensures Matched(ws[k], d) {
      SurplusIsHistory(ws[..k + 1], evs[..k], d);
      NoInjections(ws[..k + 1], evs[..k], k, d);
    }
    if evs[k].Create? {
      assert Matched(ws[k], c);
    }
    CallKeepsLevel(ws[k..], evs[k..], c);
  }

  /** While it is suspended, a coroutine stores its own depth: its commands, and how far it is
      ahead of them. While it is active, it stores the level of its caller. */
  lemma StoredLevels(ws: seq<World>, evs: seq<Event>, c: nat)
    requires Run(ws, evs) && ws[0] == Start() && c in ws[|evs|].coroutines
    ensures var w := ws[|evs|];
            && Good(w) && c in w.stacks
            && (c !in w.chain ==> w.coroutines[c].auxNumLevels == Commands(w.stacks[c]) - 1 + History(ws, evs, |evs|, c))
            && forall i :: 1 <= i < |w.chain| && w.chain[i] == c ==> w.coroutines[c].auxNumLevels == Depth(w, i)
  {
    StartGood();
    var w := ws[|evs|];
    RunGood(ws, evs, |evs|);
    if c in w.chain {
      forall i | 1 <= i < |w.chain| && w.chain[i] == c ensures w.coroutines[c].auxNumLevels == Depth(w, i) {
        assert ActiveGood(w, i);
      }
    } else {
      assert SuspendedGood(w, c);
      SurplusIsHistory(ws, evs, c);
    }
  }

  // ----- with an injected command

  /** A coroutine is made, and yields; a command is injected into it; it is called once more,
      and runs to its end. */
  const EXAMPLE := [Begin, Create(1, 5), Begin, Activate(1, 5), Back, End, Begin, Inject(1), End, Begin,
                    Activate(1, 5), End, End, End, Leave]

  /** The coroutine is not there yet, or no more. */
  function Alone(level: int, stack: seq<Callback>): World {
    World(level, ROOT, map[ROOT := stack], map[], [ROOT], map[ROOT := 0])
  }

  /** Coroutine 1 is active: it has `k` commands, and the level of its caller is `aux`. */
  function Active(level: int, k: nat, aux: int, lead: int): World {
    World(level, 1, map[ROOT := [Caller(1), Command], 1 := Stack(k)], map[1 := Coroutine(ROOT, 5, aux)], [ROOT, 1],
          map[ROOT := lead, 1 := -lead])
  }

  /** Coroutine 1 is suspended. */
  function Asleep(level: int, stack: seq<Callback>, k: nat, lead: int): World {
    World(level, ROOT, map[ROOT := stack, 1 := Stack(k)], map[1 := Coroutine(ROOT, NULL, 1)], [ROOT],
          map[ROOT := lead, 1 := -lead])
  }

  function Stack(k: nat): (q: seq<Callback>)
    ensures k > 0 ==> q == [Command] + Stack(k - 1) && q[0] == Command && q[1..] == Stack(k - 1)
  {
    if k == 0 then [Exit] else [Command] + Stack(k - 1)
  }

  function ExampleWorld(i: nat): World {
    if i == 0 then Start()
    else if i == 1 then Alone(1, [Command])
    else if i == 2 then Active(1, 1, 1, 0)
    else if i == 3 then Active(2, 2, 1, 0)
    else if i == 4 then Asleep(1, [Caller(1), Command], 2, 0)
    else if i == 5 then Asleep(1, [Command], 2, 0)
    else if i == 6 then Asleep(0, [], 2, 0)
    else if i == 7 then Asleep(1, [Command], 2, 0)
    else if i == 8 then Asleep(2, [Command], 3, 1)
    else if i == 9 then Asleep(1, [], 3, 1)
    else if i == 10 then Asleep(2, [Command], 3, 1)
    else if i <= 14 then Active(14 - i, 14 - i, 2, 1)
    else Alone(1, [Caller(1), Command])
  }

  lemma ExampleMakes(i: nat)
    requires i < 2
    ensures Allowed(ExampleWorld(i), EXAMPLE[i]) && Step(ExampleWorld(i), EXAMPLE[i]) == ExampleWorld(i + 1)
  {
    if i == 0 {
      assert [Command] + [] == [Command];
    } else {
      assert Stack(1) == [Command, Exit] && [Caller(1)] + [Command] == [Caller(1), Command] && [ROOT] + [1] == [ROOT, 1];
    }
  }

  lemma ExampleYields(i: nat)
    requires 2 <= i < 4
    ensures Allowed(ExampleWorld(i), EXAMPLE[i]) && Step(ExampleWorld(i), EXAMPLE[i]) == ExampleWorld(i + 1)
  {
    assert [ROOT, 1][..1] == [ROOT];
  }

  lemma ExampleInjects(i: nat)
    requires 4 <= i < 10
    ensures Allowed(ExampleWorld(i), EXAMPLE[i]) && Step(ExampleWorld(i), EXAMPLE[i]) == ExampleWorld(i + 1)
  {
    assert [Caller(1), Command][1..] == [Command] && [Command][1..] == [] && [Command] + [] == [Command];
  }

  lemma ExampleCalls(i: nat)
    requires 10 <= i < 15
    ensures Allowed(ExampleWorld(i), EXAMPLE[i]) && Step(ExampleWorld(i), EXAMPLE[i]) == ExampleWorld(i + 1)
  {
    assert [Caller(1)] + [Command] == [Caller(1), Command] && [ROOT] + [1] == [ROOT, 1] && [ROOT, 1][..1] == [ROOT];
    assert Stack(0) == [Exit];
  }

  /** With injected commands a call need not keep the caller's level: here one starts at level 2
      and leaves level 1. */
  lemma InjectionLowersLevel() returns (ws: seq<World>)
    ensures Run(ws, EXAMPLE) && ws[0] == Start() && Call(ws[10..], EXAMPLE[10..], 1)
    ensures ws[10].numLevels == 2 && ws[15].numLevels == 1
  {
    ws := seq(16, i requires i >= 0 => ExampleWorld(i));
    forall i | 0 <= i < 15 ensures Allowed(ws[i], EXAMPLE[i]) && ws[i + 1] == Step(ws[i], EXAMPLE[i]) {
      if i < 2 { ExampleMakes(i); } else if i < 4 { ExampleYields(i); } else if i < 10 { ExampleInjects(i); } else { ExampleCalls(i); }
    }
  }
}

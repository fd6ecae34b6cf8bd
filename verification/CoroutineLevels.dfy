/** The accounting of nesting levels across coroutines, on values. */
module CoroutineLevels {
  /** The execution environment of the interpreter itself; a coroutine is known by its own. */
  const ROOT: nat := 0

  /** The stack level of a suspended coroutine. */
  const NULL := 0

  datatype Callback = Command | Caller(c: nat) | Exit

  datatype Coroutine = Coroutine(callerEE: nat, stackLevel: int, auxNumLevels: int)

  /** The interpreter. `stacks` are the callbacks of the environments, the top ones first. `chain`
      is the environments that are active, from ROOT to the current one, each called from the
      one before it. `lead` is how far the level of an environment is ahead of its commands. */
  datatype World = World(numLevels: int, ee: nat, stacks: map<nat, seq<Callback>>, coroutines: map<nat, Coroutine>,
                         chain: seq<nat>, lead: map<nat, int>)

  datatype Event = Begin | End | Back | Create(c: nat, here: int) | Activate(c: nat, here: int) | Leave | Inject(c: nat)

  function Commands(q: seq<Callback>): (n: nat)
    ensures n <= |q|
  {
    if q == [] then 0 else Commands(q[1..]) + if q[0].Command? then 1 else 0
  }

  predicate Known(w: World, e: nat) { e in w.stacks && e in w.lead }

  /** What an environment adds to the level: its commands, of which the one that a coroutine
      was made for takes the place of the command that made it. */
  function Own(w: World, e: nat): int
    requires Known(w, e)
  {
    Commands(w.stacks[e]) + w.lead[e] - if e == ROOT then 0 else 1
  }

  ghost predicate AllKnown(w: World) { forall e :: e in w.chain ==> Known(w, e) }

  /** The level at which the first `k` environments of the chain are. */
  ghost function Depth(w: World, k: nat): int
    requires k <= |w.chain| && AllKnown(w)
  {
    if k == 0 then 0 else Depth(w, k - 1) + Own(w, w.chain[k - 1])
  }

  // ----- steps

  predicate Suspended(w: World, c: nat) { c in w.coroutines && w.coroutines[c].stackLevel == NULL }

  function Top(w: World): (q: seq<Callback>) { if w.ee in w.stacks then w.stacks[w.ee] else [] }

  /** What can happen: commands begin and end, a coroutine is made and at once resumed, one that
      is not running is resumed, the one that is running yields or comes to its end. */
  predicate Allowed(w: World, ev: Event) {
    && Known(w, w.ee)
    && match ev
       case Begin => true
       case End => Top(w) != [] && Top(w)[0].Command?
       case Back => Top(w) != [] && Top(w)[0].Caller?
       case Create(c, here) => c !in w.stacks && here != NULL
       case Activate(c, here) => c in w.coroutines && here != NULL && (Suspended(w, c) || c == w.ee)
       case Leave => w.ee in w.coroutines && Top(w) == [Exit] && w.coroutines[w.ee].callerEE in w.lead && |w.chain| >= 2
       case Inject(c) => Suspended(w, c) && Known(w, c)
  }

  function Resume(w: World, c: nat, here: int): World
    requires Known(w, w.ee) && c in w.coroutines
  {
    w.(stacks := w.stacks[w.ee := [Caller(c)] + w.stacks[w.ee]],
       coroutines := w.coroutines[c := Coroutine(w.ee, here, w.numLevels)],
       numLevels := w.numLevels + w.coroutines[c].auxNumLevels,
       ee := c,
       chain := w.chain + [c])
  }

  /** A new coroutine, with its command begun in its own environment. */
  function Made(w: World, c: nat): World {
    w.(stacks := w.stacks[c := [Command, Exit]], coroutines := w.coroutines[c := Coroutine(w.ee, NULL, 0)],
       lead := w.lead[c := 0])
  }

  function Yield(w: World, c: nat): World
    requires c in w.coroutines && w.chain != []
  {
    var cor := w.coroutines[c];
    w.(coroutines := w.coroutines[c := Coroutine(cor.callerEE, NULL, w.numLevels - cor.auxNumLevels)],
       numLevels := cor.auxNumLevels,
       ee := cor.callerEE,
       chain := w.chain[..|w.chain| - 1])
  }

  function Step(w: World, ev: Event): World
    requires Allowed(w, ev)
  {
    match ev
    case Begin => w.(stacks := w.stacks[w.ee := [Command] + Top(w)], numLevels := w.numLevels + 1)
    case End => w.(stacks := w.stacks[w.ee := Top(w)[1..]], numLevels := w.numLevels - 1)
    case Back => w.(stacks := w.stacks[w.ee := Top(w)[1..]])
    case Create(c, here) => Resume(Made(w, c), c, here)
    case Activate(c, here) =>
      if Suspended(w, c) then Resume(w, c, here)
      else if w.coroutines[c].stackLevel != here || w.chain == [] then w
      else Yield(w, c)
    case Leave =>
      var caller := w.coroutines[w.ee].callerEE;
      World(w.numLevels + 1, caller, w.stacks - {w.ee}, w.coroutines - {w.ee}, w.chain[..|w.chain| - 1],
            w.lead[caller := w.lead[caller] + w.lead[w.ee]] - {w.ee})
    case Inject(c) =>
      w.(stacks := w.stacks[c := [Command] + w.stacks[c]], numLevels := w.numLevels + 1,
         lead := w.lead[w.ee := w.lead[w.ee] + 1][c := w.lead[c] - 1])
  }

  // ----- the invariant

  predicate NoneTwice(q: seq<nat>) { forall i, j :: 0 <= i < j < |q| ==> q[i] != q[j] }

  /** The environments that are active, each with the level of its caller in store. */
  ghost predicate ChainGood(w: World)
    requires AllKnown(w)
  {
    && w.chain != [] && w.chain[0] == ROOT && w.chain[|w.chain| - 1] == w.ee
    && NoneTwice(w.chain)
    && forall i :: 1 <= i < |w.chain| ==> ActiveGood(w, i)
  }

  ghost predicate ActiveGood(w: World, i: int)
    requires AllKnown(w) && 1 <= i < |w.chain|
  {
    && w.chain[i] in w.coroutines
    && var cor := w.coroutines[w.chain[i]];
       cor.stackLevel != NULL && cor.callerEE == w.chain[i - 1] && cor.auxNumLevels == Depth(w, i)
  }

  /** A coroutine that is suspended has its own depth in store. */
  ghost predicate SuspendedGood(w: World, c: nat)
    requires c in w.coroutines && Known(w, c)
  {
    w.coroutines[c].stackLevel == NULL && w.coroutines[c].auxNumLevels == Own(w, c)
  }

  /** The level is that of the whole chain. */
  ghost predicate Good(w: World) {
    && w.stacks.Keys == w.lead.Keys == w.coroutines.Keys + {ROOT} && ROOT !in w.coroutines
    && AllKnown(w) && ChainGood(w)
    && (forall c :: c in w.coroutines && c !in w.chain ==> SuspendedGood(w, c))
    && w.numLevels == Depth(w, |w.chain|)
  }

  /** Depths depend on what the environments add, and on nothing else. */
  lemma {:induction false} DepthKept(w: World, w': World, k: nat)
    requires k <= |w.chain| && k <= |w'.chain| && AllKnown(w) && AllKnown(w')
    requires forall i :: 0 <= i < k ==> w.chain[i] == w'.chain[i] && Own(w, w.chain[i]) == Own(w', w.chain[i])
    ensures Depth(w, k) == Depth(w', k)
  {
    if k > 0 {
      DepthKept(w, w', k - 1);
    }
  }

  lemma DepthsKept(w: World, w': World, k: nat)
    requires k <= |w.chain| && k <= |w'.chain| && AllKnown(w) && AllKnown(w')
    requires forall i :: 0 <= i < k ==> w.chain[i] == w'.chain[i] && Own(w, w.chain[i]) == Own(w', w.chain[i])
    ensures forall j :: 0 <= j <= k ==> Depth(w, j) == Depth(w', j)
  {
    forall j | 0 <= j <= k ensures Depth(w, j) == Depth(w', j) {
      DepthKept(w, w', j);
    }
  }

  /** At the start, nothing is being evaluated. */
  function Start(): World { World(0, ROOT, map[ROOT := []], map[], [ROOT], map[ROOT := 0]) }

  lemma StartGood()
    ensures Good(Start())
  {
  }

  lemma CommandsPush(cb: Callback, q: seq<Callback>)
    ensures Commands([cb] + q) == Commands(q) + if cb.Command? then 1 else 0
  {
    assert ([cb] + q)[1..] == q;
  }

  ghost predicate SameCoroutine(w: World, w': World, c: nat) {
    c in w.coroutines ==> c in w'.coroutines && w'.coroutines[c] == w.coroutines[c]
  }

  /** What is stored for the first `k` environments stays right if all but the last of them add
      the same as before. */
  lemma ChainKept(w: World, w': World, k: nat)
    requires AllKnown(w) && AllKnown(w') && ChainGood(w) && 1 <= k <= |w.chain| && k <= |w'.chain|
    requires forall i :: 0 <= i < k ==> w.chain[i] == w'.chain[i]
    requires forall i :: 0 <= i < k - 1 ==> Own(w, w.chain[i]) == Own(w', w.chain[i])
    requires forall i :: 1 <= i < k ==> SameCoroutine(w, w', w.chain[i])
    ensures forall i :: 1 <= i < k ==> ActiveGood(w', i)
    ensures Depth(w, k - 1) == Depth(w', k - 1)
  {
    DepthsKept(w, w', k - 1);
    forall i | 1 <= i < k ensures ActiveGood(w', i) {
      assert ActiveGood(w, i);
    }
  }

  /** A coroutine that is suspended or not there yet is not in the chain. */
  lemma NotActive(w: World, c: nat)
    requires Good(w) && (c !in w.stacks || Suspended(w, c))
    ensures c !in w.chain
  {
    forall i | 0 <= i < |w.chain| ensures w.chain[i] != c {
      assert w.chain[i] in w.chain;
      assert i >= 1 ==> ActiveGood(w, i);
    }
  }

  /** Commands begin and end, in the current environment. */
  lemma LocalGood(w: World, ev: Event)
    requires Good(w) && Allowed(w, ev) && (ev.Begin? || ev.End? || ev.Back?)
    ensures Good(Step(w, ev))
  {
    var w' := Step(w, ev);
    CommandsPush(Command, Top(w));
    assert AllKnown(w');
    assert Own(w', w.ee) == Own(w, w.ee) + (w'.numLevels - w.numLevels);
    ChainKept(w, w', |w.chain|);
    forall c | c in w'.coroutines && c !in w'.chain ensures SuspendedGood(w', c) {
      assert SuspendedGood(w, c);
      assert w.ee in w.chain;
    }
  }

  lemma NewStack()
    ensures Commands([Command, Exit]) == 1
  {
    CommandsPush(Command, [Exit]);
    CommandsPush(Exit, []);
    assert [Command] + [Exit] == [Command, Exit] && [Exit] + [] == [Exit];
  }

  lemma MadeGood(w: World, c: nat)
    requires Good(w) && c !in w.stacks
    ensures Good(Made(w, c)) && Suspended(Made(w, c), c) && c !in w.chain
  {
    var w' := Made(w, c);
    NewStack();
    NotActive(w, c);
    forall e | e in w'.chain ensures Known(w', e) && Own(w', e) == Own(w, e) { assert Known(w, e); }
    ChainKept(w, w', |w.chain|);
    forall d | d in w'.coroutines && d !in w'.chain ensures SuspendedGood(w', d) { MadeOthers(w, c, d); }
  }

  lemma MadeOthers(w: World, c: nat, d: nat)
    requires Good(w) && c !in w.stacks && (d == c || (d in w.coroutines && d !in w.chain))
    ensures Known(Made(w, c), d) && SuspendedGood(Made(w, c), d)
  {
    NewStack();
    assert d != c ==> SuspendedGood(w, d);
  }

  lemma ResumeGood(w: World, c: nat, here: int)
    requires Good(w) && Suspended(w, c) && here != NULL
    ensures Good(Resume(w, c, here))
  {
    var w' := Resume(w, c, here);
    NotActive(w, c);
    ResumeOwn(w, c, here);
    ResumeChain(w, c, here);
    forall d | d in w'.coroutines && d !in w'.chain ensures SuspendedGood(w', d) { ResumeOthers(w, c, here, d); }
  }

  lemma ResumeChain(w: World, c: nat, here: int)
    requires Good(w) && Suspended(w, c) && here != NULL && c !in w.chain && AllKnown(Resume(w, c, here))
    requires var w' := Resume(w, c, here);
             Own(w', c) == w.coroutines[c].auxNumLevels && forall e :: e in w.chain ==> Own(w', e) == Own(w, e)
    ensures var w' := Resume(w, c, here); ChainGood(w') && w'.numLevels == Depth(w', |w'.chain|)
  {
    var w', last := Resume(w, c, here), |w.chain|;
    ChainKept(w, w', last);
    assert w.chain[last - 1] in w.chain;
    assert Depth(w', last) == Depth(w, last) == w.numLevels;
    assert ActiveGood(w', last);
  }

  /** No environment adds more or less because of a resumption. */
  lemma ResumeOwn(w: World, c: nat, here: int)
    requires Good(w) && Suspended(w, c) && c !in w.chain
    ensures var w' := Resume(w, c, here);
            && AllKnown(w') && Known(w, c) && Own(w', c) == Own(w, c) == w.coroutines[c].auxNumLevels
            && forall e :: e in w.chain ==> Known(w, e) && Known(w', e) && Own(w', e) == Own(w, e)
  {
    assert w.ee in w.chain && Known(w, w.ee);
    CommandsPush(Caller(c), w.stacks[w.ee]);
    assert SuspendedGood(w, c);
    forall e | e in w.chain ensures Known(w, e) {
    }
  }

  lemma ResumeOthers(w: World, c: nat, here: int, d: nat)
    requires Good(w) && Suspended(w, c) && d in w.coroutines && d !in w.chain + [c]
    ensures Known(Resume(w, c, here), d) && SuspendedGood(Resume(w, c, here), d)
  {
    assert d !in w.chain by {
      forall i | 0 <= i < |w.chain| ensures w.chain[i] != d { assert (w.chain + [c])[i] == w.chain[i]; }
    }
    assert (w.chain + [c])[|w.chain|] == c;
    assert SuspendedGood(w, d);
    assert w.ee in w.chain;
  }

  lemma YieldGood(w: World)
    requires Good(w) && w.ee in w.coroutines
    ensures Good(Yield(w, w.ee))
  {
    var w' := Yield(w, w.ee);
    YieldChain(w);
    forall d | d in w'.coroutines && d !in w'.chain ensures SuspendedGood(w', d) { YieldOthers(w, d); }
  }

  lemma YieldChain(w: World)
    requires Good(w) && w.ee in w.coroutines
    ensures var w' := Yield(w, w.ee); AllKnown(w') && ChainGood(w') && w'.numLevels == Depth(w', |w'.chain|)
  {
    var w', last := Yield(w, w.ee), |w.chain| - 1;
    assert ActiveGood(w, last);
    forall e | e in w'.chain ensures Known(w', e) { assert e in w.chain; }
    ChainKept(w, w', last);
  }

  lemma YieldOthers(w: World, d: nat)
    requires Good(w) && w.ee in w.coroutines && d in w.coroutines && d !in w.chain[..|w.chain| - 1]
    ensures Known(Yield(w, w.ee), d) && SuspendedGood(Yield(w, w.ee), d)
  {
    OutOfShorter(w, d);
    assert ActiveGood(w, |w.chain| - 1);
    assert d != w.ee ==> SuspendedGood(w, d);
    assert w.ee in w.chain;
  }

  lemma OutOfShorter(w: World, d: nat)
    requires w.chain != [] && d !in w.chain[..|w.chain| - 1]
    ensures d in w.chain ==> d == w.chain[|w.chain| - 1]
  {
    var last := |w.chain| - 1;
    forall i | 0 <= i < last ensures w.chain[i] != d {
      assert w.chain[..last][i] == w.chain[i];
    }
  }

  lemma LeaveGood(w: World)
    requires Good(w) && Allowed(w, Leave)
    ensures Good(Step(w, Leave))
  {
    var w' := Step(w, Leave);
    LeaveOwn(w);
    LeaveChain(w);
    forall d | d in w'.coroutines && d !in w'.chain ensures SuspendedGood(w', d) { LeaveOthers(w, d); }
  }

  lemma LeaveChain(w: World)
    requires Good(w) && Allowed(w, Leave) && AllKnown(Step(w, Leave))
    ensures var w' := Step(w, Leave); ChainGood(w') && w'.numLevels == Depth(w', |w'.chain|)
  {
    var w', last := Step(w, Leave), |w.chain| - 1;
    LeaveOwn(w);
    assert w.chain[last - 1] != w.ee;
    forall i | 1 <= i < last ensures SameCoroutine(w, w', w.chain[i]) { assert w.chain[i] != w.ee; }
    ChainKept(w, w', last);
    assert Depth(w, last + 1) == Depth(w, last - 1) + Own(w, w.chain[last - 1]) + Own(w, w.ee);
  }

  lemma LeaveOthers(w: World, d: nat)
    requires Good(w) && Allowed(w, Leave) && d in w.coroutines && d != w.ee && d !in w.chain[..|w.chain| - 1]
    ensures Known(Step(w, Leave), d) && SuspendedGood(Step(w, Leave), d)
  {
    OutOfShorter(w, d);
    assert SuspendedGood(w, d);
    assert ActiveGood(w, |w.chain| - 1);
    assert w.chain[..|w.chain| - 1][|w.chain| - 2] == w.coroutines[w.ee].callerEE;
  }

  /** What a coroutine leaves to its caller. */
  lemma LeaveOwn(w: World)
    requires Good(w) && Allowed(w, Leave)
    ensures var w', last := Step(w, Leave), |w.chain| - 1;
            && AllKnown(w') && w.coroutines[w.ee].callerEE == w.chain[last - 1] && w.chain[last - 1] in w.chain
            && Own(w, w.ee) == w.lead[w.ee] - 1
            && Own(w', w.chain[last - 1]) == Own(w, w.chain[last - 1]) + w.lead[w.ee]
            && forall i :: 0 <= i < last - 1 ==> w.chain[i] in w.chain && Own(w', w.chain[i]) == Own(w, w.chain[i])
  {
    var w', last := Step(w, Leave), |w.chain| - 1;
    assert ActiveGood(w, last);
    CommandsPush(Exit, []);
    assert [Exit] + [] == [Exit];
    forall i | 0 <= i < last ensures w.chain[i] in w.chain && Known(w', w.chain[i]) {
      assert Known(w, w.chain[i]);
    }
  }

  lemma InjectGood(w: World, c: nat)
    requires Good(w) && Allowed(w, Inject(c))
    ensures Good(Step(w, Inject(c)))
  {
    var w' := Step(w, Inject(c));
    NotActive(w, c);
    assert w.ee in w.chain;
    CommandsPush(Command, w.stacks[c]);
    assert SuspendedGood(w, c);
    forall e | e in w.chain ensures Known(w', e) { assert Known(w, e); }
    assert Own(w', c) == Own(w, c) && Own(w', w.ee) == Own(w, w.ee) + 1;
    ChainKept(w, w', |w.chain|);
    forall d | d in w'.coroutines && d !in w'.chain ensures SuspendedGood(w', d) { InjectOthers(w, c, d); }
  }

  lemma InjectOthers(w: World, c: nat, d: nat)
    requires Good(w) && Allowed(w, Inject(c)) && d in w.coroutines && d !in w.chain
    ensures Known(Step(w, Inject(c)), d) && SuspendedGood(Step(w, Inject(c)), d)
  {
    CommandsPush(Command, w.stacks[c]);
    assert SuspendedGood(w, d);
    assert w.ee in w.chain;
  }

  /** Every step keeps the accounts. */
  lemma StepGood(w: World, ev: Event)
    requires Good(w) && Allowed(w, ev)
    ensures Good(Step(w, ev))
  {
    match ev
    case Begin => LocalGood(w, ev);
    case End => LocalGood(w, ev);
    case Back => LocalGood(w, ev);
    case Create(c, here) => MadeGood(w, c); ResumeGood(Made(w, c), c, here);
    case Activate(c, here) => if Suspended(w, c) { ResumeGood(w, c, here); } else { YieldGood(w); }
    case Leave => LeaveGood(w);
    case Inject(c) => InjectGood(w, c);
  }

  /** A yield that is refused changes nothing. */
  lemma RefusedYield(w: World, here: int)
    requires Good(w) && w.ee in w.coroutines && here != NULL && here != w.coroutines[w.ee].stackLevel
    ensures Allowed(w, Activate(w.ee, here)) && Step(w, Activate(w.ee, here)) == w
  {
    assert ActiveGood(w, |w.chain| - 1);
  }

  /** A command injected into a coroutine counts for the one who injects it, before it is run. */
  lemma InjectedCounts(w: World, c: nat)
    requires Good(w) && Allowed(w, Inject(c))
    ensures var w' := Step(w, Inject(c));
            && w'.numLevels == w.numLevels + 1
            && forall e :: e in w.chain ==> Known(w, e) && Known(w', e) && w'.stacks[e] == w.stacks[e]
  {
    NotActive(w, c);
    assert AllKnown(w);
  }
}

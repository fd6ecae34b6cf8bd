/** The interpreter's callbacks that start, resume, suspend and end coroutines. */
module Coroutines {
  import opened CoroutineLevels

  datatype Outcome = Ok | AlreadyRunning | NotInCoroutine | StackBusy | NotSuspended

  class Interp {
    var numLevels: int
    var execEnv: nat
    var stacks: map<nat, seq<Callback>>
    var coroutines: map<nat, Coroutine>
    ghost var chain: seq<nat>
    ghost var lead: map<nat, int>

    ghost function Now(): World
      reads this
    {
      World(numLevels, execEnv, stacks, coroutines, chain, lead)
    }

    ghost predicate Valid() reads this { Good(Now()) && Known(Now(), execEnv) }

    constructor ()
      ensures Valid() && Now() == Start()
    {
      numLevels, execEnv, stacks, coroutines := 0, ROOT, map[ROOT := []], map[];
      chain, lead := [ROOT], map[ROOT := 0];
      new;
      StartGood();
    }

    /** Whatever was done amounts to a step. */
    lemma Stepped(w: World, ev: Event)
      requires Good(w) && Allowed(w, ev) && Now() == Step(w, ev)
      ensures Valid()
    {
      StepGood(w, ev);
      assert execEnv in chain;
    }

    /** A command begins. */
    method EvalObjv()
      requires execEnv in stacks
      modifies this`numLevels, this`stacks
      ensures numLevels == old(numLevels) + 1 && stacks == old(stacks)[execEnv := [Command] + old(stacks)[execEnv]]
      ensures old(Valid()) ==> Valid() && Now() == Step(old(Now()), Begin)
    {
      ghost var w := Now();
      stacks := stacks[execEnv := [Command] + stacks[execEnv]];
      numLevels := numLevels + 1;
      if old(Valid()) {
        Stepped(w, Begin);
      }
    }

    /** A command has ended. */
    method CommandCallback()
      requires Valid() && stacks[execEnv] != [] && stacks[execEnv][0].Command?
      modifies this`numLevels, this`stacks
      ensures Valid() && Now() == Step(old(Now()), End)
      ensures numLevels == old(numLevels) - 1 && stacks == old(stacks)[execEnv := old(stacks)[execEnv][1..]]
    {
      ghost var w := Now();
      stacks := stacks[execEnv := stacks[execEnv][1..]];
      numLevels := numLevels - 1;
      Stepped(w, End);
    }

    /** A coroutine has yielded or ended, and its caller goes on. */
    method CallerCallback()
      requires Valid() && stacks[execEnv] != [] && stacks[execEnv][0].Caller?
      modifies this`stacks
      ensures Valid() && Now() == Step(old(Now()), Back)
      ensures stacks == old(stacks)[execEnv := old(stacks)[execEnv][1..]]
    {
      ghost var w := Now();
      stacks := stacks[execEnv := stacks[execEnv][1..]];
      Stepped(w, Back);
    }

    /** Resume coroutine `c` if it is suspended; otherwise suspend it, unless the C stack has
        grown since it was resumed. `here` is where the C stack is. */
    method ActivateCallback(c: nat, here: int) returns (ok: bool)
      requires Valid() && Allowed(Now(), Activate(c, here))
      modifies this
      ensures Valid() && Now() == Step(old(Now()), Activate(c, here))
      ensures ok <==> old(coroutines[c].stackLevel) == NULL || old(coroutines[c].stackLevel) == here
      ensures !ok ==> unchanged(this)
      ensures old(coroutines[c].stackLevel) == NULL ==>
        && execEnv == c && numLevels == old(numLevels + coroutines[c].auxNumLevels)
        && coroutines == old(coroutines[c := Coroutine(execEnv, here, numLevels)])
        && old(execEnv in stacks) && stacks == old(stacks[execEnv := [Caller(c)] + stacks[execEnv]])
      ensures ok && old(coroutines[c].stackLevel) != NULL ==>
        && execEnv == old(coroutines[c].callerEE) && numLevels == old(coroutines[c].auxNumLevels)
        && coroutines == old(coroutines[c := Coroutine(coroutines[c].callerEE, NULL, numLevels - coroutines[c].auxNumLevels)])
        && stacks == old(stacks)
    {
      ghost var w := Now();
      var cor := coroutines[c];
      if cor.stackLevel == NULL {
        stacks := stacks[execEnv := [Caller(c)] + stacks[execEnv]];
        var relative := cor.auxNumLevels;
        coroutines := coroutines[c := Coroutine(execEnv, here, numLevels)];
        execEnv := c;
        numLevels := numLevels + relative;
        chain := chain + [c];
      } else {
        if cor.stackLevel != here {
          return false;
        }
        var level := numLevels;
        numLevels := cor.auxNumLevels;
        coroutines := coroutines[c := Coroutine(cor.callerEE, NULL, level - cor.auxNumLevels)];
        execEnv := cor.callerEE;
        chain := chain[..|chain| - 1];
      }
      ok := true;
      Stepped(w, Activate(c, here));
    }

    /** Make a coroutine, with its first command begun in its own environment `c`, and resume it. */
    method CoroutineObjCmd(c: nat, here: int)
      requires Valid() && c !in stacks && here != NULL
      modifies this
      ensures Valid() && Now() == Step(old(Now()), Create(c, here))
      ensures execEnv == c && numLevels == old(numLevels) && coroutines == old(coroutines[c := Coroutine(execEnv, here, numLevels)])
      ensures old(execEnv in stacks) && stacks == old(stacks[c := [Command, Exit]][execEnv := [Caller(c)] + stacks[execEnv]])
    {
      MakeCoroutine(c);
      var _ := ActivateCallback(c, here);
    }

    method MakeCoroutine(c: nat)
      requires Valid() && c !in stacks
      modifies this
      ensures Valid() && Now() == Made(old(Now()), c) && Suspended(Now(), c)
    {
      ghost var w := Now();
      numLevels := numLevels - 1;
      var callerEE := execEnv;
      coroutines := coroutines[c := Coroutine(callerEE, NULL, 0)];
      execEnv := c;
      stacks := stacks[c := [Exit]];
      lead := lead[c := 0];
      EvalObjv();
      execEnv := callerEE;
      assert [Command] + [Exit] == [Command, Exit];
      assert stacks == w.stacks[c := [Command, Exit]];
      assert Now() == Made(w, c);
      IsMade(w, c);
    }

    lemma IsMade(w: World, c: nat)
      requires Good(w) && Known(w, w.ee) && c !in w.stacks && Now() == Made(w, c)
      ensures Valid() && Suspended(Now(), c)
    {
      MadeGood(w, c);
    }

    /** The coroutine that is running has come to its end. */
    method ExitCallback()
      requires Valid() && Allowed(Now(), Leave)
      modifies this
      ensures Valid() && Now() == Step(old(Now()), Leave)
      ensures old(execEnv in coroutines) && execEnv == old(coroutines[execEnv].callerEE) && numLevels == old(numLevels) + 1
      ensures coroutines == old(coroutines - {execEnv}) && stacks == old(stacks - {execEnv})
    {
      ghost var w := Now();
      var c := execEnv;
      var callerEE := coroutines[c].callerEE;
      coroutines := coroutines - {c};
      stacks := stacks - {c};
      execEnv := callerEE;
      numLevels := numLevels + 1;
      ghost var w' := Step(w, Leave);
      chain, lead := w'.chain, w'.lead;
      assert Now() == w';
      Stepped(w, Leave);
    }

    /** The command of coroutine `c`: resume it, unless it is running already. */
    method CoroutineCommand(c: nat, here: int) returns (outcome: Outcome)
      requires Valid() && c in coroutines && here != NULL
      modifies this
      ensures Valid()
      ensures outcome == if old(coroutines[c].stackLevel) == NULL then Ok else AlreadyRunning
      ensures Now() == if outcome == Ok then Step(old(Now()), Activate(c, here)) else old(Now())
    {
      if coroutines[c].stackLevel != NULL {
        return AlreadyRunning;
      }
      var _ := ActivateCallback(c, here);
      outcome := Ok;
    }

    /** yield, which a coroutine can do for itself only. */
    method YieldObjCmd(here: int) returns (outcome: Outcome)
      requires Valid() && here != NULL
      modifies this
      ensures Valid()
      ensures outcome == if old(execEnv !in coroutines) then NotInCoroutine
                         else if old(coroutines[execEnv].stackLevel) == here then Ok else StackBusy
      ensures Now() == if outcome == Ok then Yield(old(Now()), old(execEnv)) else old(Now())
      ensures outcome == Ok ==> execEnv == old(coroutines[execEnv].callerEE) && numLevels == old(coroutines[execEnv].auxNumLevels)
    {
      if execEnv !in coroutines {
        return NotInCoroutine;
      }
      assert ActiveGood(Now(), |chain| - 1);
      var ok := ActivateCallback(execEnv, here);
      outcome := if ok then Ok else StackBusy;
    }

    /** Begin a command in a coroutine that is suspended. */
    method InjectObjCmd(c: nat) returns (outcome: Outcome)
      requires Valid() && c in coroutines
      modifies this
      ensures Valid()
      ensures outcome == if old(coroutines[c].stackLevel) == NULL then Ok else NotSuspended
      ensures Now() == if outcome == Ok then Step(old(Now()), Inject(c)) else old(Now())
      ensures outcome == Ok ==>
        && execEnv == old(execEnv) && coroutines == old(coroutines) && numLevels == old(numLevels) + 1
        && old(c in stacks) && stacks == old(stacks[c := [Command] + stacks[c]])
    {
      ghost var w := Now();
      if coroutines[c].stackLevel != NULL {
        return NotSuspended;
      }
      NotActive(w, c);
      assert Known(w, c);
      var saved := execEnv;
      execEnv := c;
      EvalObjv();
      execEnv := saved;
      lead := lead[execEnv := lead[execEnv] + 1][c := lead[c] - 1];
      Stepped(w, Inject(c));
      outcome := Ok;
    }
  }
}

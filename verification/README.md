# A verified model of Tcl's regular expression engine and four of its neighbours

This Dafny project models the hardest parts of Tcl's core in C and proves what they are meant to guarantee:
the regular expression engine (compiler and executor), and beside it the power-of-two allocator, asynchronous
handlers, the level accounting of coroutines, the random generator, and base64.

Check it with `dafny verify dfyconfig.toml`.

## What is modelled

**Meaning.** An *extended word* is the symbol before a match, the colours of the matched characters, and the
symbol after the match; the ends of the string are symbols of their own (`bos`, `eos`). A set of arcs accepts
an extended word if a path from `pre` to `post` reads it (`Automaton`). A `^` arc out of `pre` consumes the
`bos` symbol; anywhere else it is of no width and tests the symbol read last. A BEHIND arc tests the symbol
read last, an AHEAD arc the next one; a `$` arc tests for `eos`, and consumes it on entering `post`. A lookahead
constraint is an arbitrary predicate on the position. "Same accepted words" always means: for every meaning of
the lookahead constraints. All of that is the compiler's own way of speaking; what comes out in the end is stated
without it: `Meaning` says where a label holds in a string, `^` and `$` with their flags included, `Syntax` what a
string of tokens means as an expression, and `Groups` which groups take part in a match.

**Compiler.** `NfaModel.Nfa` is the mutable NFA; every other compiler operation rewrites one in place.

| modules | what they hold |
|---|---|
| `NfaModel`, `Surgery` | states, arcs, and the small rewritings that keep the accepted words |
| `Weights` | why pulling and pushing constraints comes to an end |
| `EmptyWords`, `Empties`, `Constraints`, `Cleanup`, `Optimizer` | EMPTY elimination, pulling and pushing of constraints, dropping useless states, and `optimize`, which strings them together |
| `CompactNfa`, `Compaction` | the form that the executor runs, and the way there |
| `SearchNfa`, `Compile` | the NFA that finds matches anywhere, derived from the main one |
| `Fragments`, `Duplicate`, `Deletion`, `Reaching`, `Repetition` | pieces of an NFA as languages; copying, deleting, and `{m,n}` |
| `Climbing`, `Ways` | fragments without cycles of arcs of no width, and expressions that make them |
| `Grammar`, `Parser` | how tokens are read, and the parser that builds the NFA from them in place |
| `Syntax` | an independent grammar as trees, which the reading agrees with, and which strings are refused and for what |
| `Framing`, `NodeBuild`, `TreeBuild` | from a fragment to the automaton of a tree node, and from a tree of fragments to what the executor needs |
| `Meaning`, `CompileRe` | what words of labels say of a string, and the whole way from tokens to what the executor runs |
| `ColorFacts`, `ColorSession`, `ColorMap`, `ColorArcs`, `Brackets` | the copy-on-write colour map, its refinement while arcs refer to it, and bracket expressions |

**Executor.** A lazy DFA with a cache of bounded size, on top of it the search, on top of that the dissection.

| modules | what they hold |
|---|---|
| `Simulation` | plain subset simulation, and that it finds exactly the matches that paths give |
| `SubsetStep`, `CacheLinks`, `CacheState`, `CacheRoom`, `LazyDfa` | a cache miss, the chains of links, time stamps, replacement, and the DFA as a class: `Longest`, `Shortest`, `LastCold` |
| `Search` | `cold` and `close`: where the leftmost match begins, and its preferred end |
| `Dissection`, `Groups`, `Execute` | submatches, which groups take part in a match, and `SimpleFind` as a whole |

The chain of results runs from end to end. Optimizing and compacting keep the accepted words; subset simulation
of the compact automaton agrees with paths; the lazy DFA agrees with subset simulation whatever was replaced; the
search automaton accepts exactly the words that end in a match; so `Execute.SimpleFind` succeeds if and only if
some match exists, and reports the leftmost one, its preferred end, and for each group the stretch over which it takes
part. For expressions without captures the chain begins at the tokens: they are read exactly if they are those of an
expression, what the parser builds has exactly the words that the expression means, and so `CompileRe.MatchIsWord` and
`CompileRe.ReportedIsPreferred` say of the outcome what the expression means. And compiling comes to an end: wherever
what is repeated without bound reads something, the parser makes no cycle of arcs of no width, and without such cycles
EMPTY elimination, pulling and pushing all finish, in whatever order they visit arcs.

**Neighbours.** `AllocFacts`, `AllocLinks`, `AllocHeap` and `Allocator`: the allocator, every byte of every arena
accounted for. `AsyncProtocol` and `Async`: handlers, with marks from other threads and deletions between any two
sections of code that hold the mutex. `CoroutineLevels`, `CoroutineCalls` and `Coroutines`: the nesting level across coroutines.
`Random`: `rand()` and `srand()`, in 32-bit integers. `Base64Encode`, `Base64Decode` and `Base64`: the encoder with
its wrapped lines, the decoder, and the round trip.

## Findings

- A call into a coroutine does not always keep the level of the caller. A command that is injected into a coroutine
  counts for the one who injects it (`CoroutineLevels.InjectedCounts`), so a coroutine that ends may give back a level
  that it never took: `CoroutineCalls.InjectionLowersLevel` is such a run. Before the call it shows: the coroutine stores
  another number of levels than it has commands. `CoroutineCalls.CallKeepsLevel` says that this, with nothing injected on
  the way, is exactly when the level is not kept; `CoroutineCalls.CallConserves` says what every call keeps.
- White space after encoded text costs the decoder's result its last byte, and more than four white-space characters
  alone make its length -1: `Base64.TrailingBlanks`. The encoder never writes any, and the round trip is for its own output.
- The counting argument for replacement in the cache needs seven entries, that is, four states. With two or three
  states the cache is smaller, and still never runs out of entries, for another reason (`CacheRoom.TwoStates`,
  `CacheRoom.ThreeStates`).
- `makesearch` may list the state that it lists first a second time, and split it twice: `SearchNfa.ListSplits`. The
  second double is entered by nothing (`SearchNfa.SplittingMore`).
- `fixempties` terminates when the EMPTY arcs are acyclic: `Empties.UnemptyLowers` gives the measure. So do `pullback` and
  `pushfwd` when the arcs other than PLAIN ones are, although a pull may leave more constraints than there were: states
  can be given weights by which it always makes the constraints weigh less (`Weights`, `Constraints.Pull`). Compiling an
  expression therefore finishes if all that is repeated without bound reads something (`CompileRe.CompileTokens`).

## Model

| member | source | states |
|---|---|---|
| `NfaModel.Nfa.constructor` | tcl/generic/regc_nfa.c:55-66 | a new NFA has two distinct flagged states numbered 0 and 1, no arcs and no marks |
| `NfaModel.Nfa.NewState` | tcl/generic/regc_nfa.c:174-223 | the new state is one that no arc touches; arcs and the order of the other states are kept, and a numbering stays a numbering |
| `NfaModel.Nfa.DropState` | tcl/generic/regc_nfa.c:248-261 | exactly the state and the arcs that touch it are gone |
| `NfaModel.Nfa.FreeState` | tcl/generic/regc_nfa.c:268-293 | exactly the state is gone from the chain |
| `NfaModel.Nfa.NewArc` | tcl/generic/regc_nfa.c:324-374 | the arc is there afterwards, once, and nothing else changes |
| `NfaModel.Nfa.FreeArc` | tcl/generic/regc_nfa.c:432-497 | exactly the arc is gone |
| `NfaModel.Nfa.CopyArc` | tcl/generic/regc_nfa.c:526-533 | the arc is copied between two other states |
| `NfaModel.Nfa.MoveIns` | tcl/generic/regc_nfa.c:544-559 | all arcs into one state lead to another instead |
| `NfaModel.Nfa.CopyIns` | tcl/generic/regc_nfa.c:566-578 | all arcs into one state lead to another as well |
| `NfaModel.Nfa.MoveOuts` | tcl/generic/regc_nfa.c:585-598 | all arcs out of one state leave another instead |
| `NfaModel.Nfa.CopyOuts` | tcl/generic/regc_nfa.c:605-617 | all arcs out of one state leave another as well |
| `Surgery.CloneFromKeeps` | tcl/generic/regc_nfa.c:962-978 | giving a constraint a source state of its own, with copies of the arcs into the old one, keeps the accepted words |
| `Surgery.CloneToKeeps` | tcl/generic/regc_nfa.c:1122-1137 | giving a constraint a target state of its own keeps the accepted words |
| `Surgery.DropIdle` | tcl/generic/regc_nfa.c:943-960 | a constraint from a state to itself accepts nothing more |
| `Surgery.DropUnreached` | tcl/generic/regc_nfa.c:938-941 | arcs out of a state that nothing enters accept nothing |
| `Surgery.DropDeadEnd` | tcl/generic/regc_nfa.c:1095-1098 | arcs into a state that nothing leaves accept nothing |
| `Surgery.AddShortcuts` | tcl/generic/regc_nfa.c:1010-1015 | arcs that do what two arcs in a row do accept nothing more |
| `Surgery.AddDetour` | tcl/generic/regc_nfa.c:992-1003 | two arcs through a fresh state that do what two other arcs do accept nothing more |
| `Empties.FromSide` | tcl/generic/regc_nfa.c:1316-1327 | an EMPTY arc may give way to copies, at its target, of the arcs into its source: same accepted words |
| `Empties.ToSide` | tcl/generic/regc_nfa.c:1328-1339 | an EMPTY arc may give way to copies, at its source, of the arcs out of its target: same accepted words |
| `Empties.Unempty` | tcl/generic/regc_nfa.c:1283-1342 | both variants keep the accepted words for every meaning of lookahead constraints, and the words of labels other than EMPTY from pre to post; the arc is replaced by such copies only, and no states or labels come in |
| `EmptyWords.UnemptyKeepsWords` | tcl/generic/regc_nfa.c:1316-1339 | what either variant leaves has exactly the words of labels other than EMPTY from pre to post that there were |
| `Empties.NewCostsLess` | tcl/generic/regc_nfa.c:1316-1339 | with EMPTY arcs acyclic, all EMPTY copies together cost less than the arc they replace, for a cost that grows exponentially with the distance its ends are apart |
| `Empties.UnemptyLowers` | tcl/generic/regc_nfa.c:1283-1342 | each elimination strictly lowers the total cost of the EMPTY arcs |
| `Empties.UnemptyAcyclic` | tcl/generic/regc_nfa.c:1283-1342 | and keeps them acyclic |
| `Empties.EmptyPass` | tcl/generic/regc_nfa.c:1258-1269 | one pass keeps the accepted words, whether or not it comes upon arcs that it has made or ends early; without progress no EMPTY arc is left, with progress acyclic EMPTY arcs cost less than before |
| `Empties.FixEmpties` | tcl/generic/regc_nfa.c:1243-1274 | same accepted words; when it finishes no EMPTY arc is left; if the EMPTY arcs are acyclic it finishes, without a bound on its passes or with any bound that is large enough; whatever ranking the arcs other than PLAIN ones lead up, they still do |
| `Constraints.PullVerdict` | tcl/generic/regc_nfa.c:1186-1236 | what `combine` says of a constraint and an arc before it is true of all words: incompatible means they can never both be followed, satisfied means the arc alone does what both do |
| `Constraints.PullSwap` | tcl/generic/regc_nfa.c:1186-1236 | compatible means the two may pass each other through a fresh state |
| `Constraints.PushVerdict` | tcl/generic/regc_nfa.c:1186-1236 | the same for a forward constraint and an arc after it |
| `Constraints.PushSwap` | tcl/generic/regc_nfa.c:1186-1236 | the same for a forward constraint that passes an arc |
| `Constraints.DropCircular` | tcl/generic/regc_nfa.c:943-960 | exactly the constraints from the state to itself go, and the accepted words stay |
| `Constraints.IsolateSource` | tcl/generic/regc_nfa.c:962-978 | the constraint ends up alone at its source, a copy of the old one if that had other arcs; same accepted words |
| `Constraints.LandBack` | tcl/generic/regc_nfa.c:984-1008 | one arc into the source is deleted, left, or passed, as `combine` says; same accepted words |
| `Constraints.PullAlone` | tcl/generic/regc_nfa.c:980-1015 | afterwards the constraint and its source are gone, and the satisfied arcs lead to its target; same accepted words |
| `Constraints.Pull` | tcl/generic/regc_nfa.c:921-1017 | a pull keeps the set of accepted extended words, succeeds exactly if the constraint does not leave pre or post (or is circular), and then the constraint is gone and the mass of the back constraints is less, whatever weights the states had; refused, it changes nothing |
| `Constraints.IsolateTarget` | tcl/generic/regc_nfa.c:1122-1137 | the mirror image for forward constraints |
| `Constraints.LandForward` | tcl/generic/regc_nfa.c:1143-1167 | one arc out of the target is deleted, left, or passed; same accepted words |
| `Constraints.PushAlone` | tcl/generic/regc_nfa.c:1139-1174 | afterwards the constraint and its target are gone; same accepted words |
| `Constraints.Push` | tcl/generic/regc_nfa.c:1078-1176 | a push keeps the set of accepted extended words, succeeds exactly if the constraint does not enter pre or post (or is circular), and then the constraint is gone and the mass of the forward constraints is less; refused, it changes nothing |
| `Weights.ClonedWeighted` | tcl/generic/regc_nfa.c:962-978 | when a constraint gets a source of its own, weights that bear what arcs of no width bring can be given to the new state, and the mass of the constraints grows by no more than what comes in there |
| `Weights.PassedWeighted` | tcl/generic/regc_nfa.c:992-1003 | when a constraint passes an arc, weights can be given again so that the mass does not grow |
| `Weights.AbsorbedWeighted` | tcl/generic/regc_nfa.c:1010-1015 | when what is left absorbs the constraint, more mass goes than its own source had brought |
| `Weights.WeightsExist` | tcl/generic/regc_nfa.c:867-911 | where arcs other than PLAIN ones have no cycle, there are such weights |
| `Weights.WeightsClimb` | tcl/generic/regc_nfa.c:867-911 | and where there are, these arcs have no cycle: pulling constraints makes none |
| `Optimizer.PullPass` | tcl/generic/regc_nfa.c:882-894 | a pass keeps the accepted words, whether or not it comes upon arcs that it has made, and comes to an end if the arcs other than PLAIN ones have no cycle; without progress nothing has changed and back constraints leave flagged states only |
| `Optimizer.PushPass` | tcl/generic/regc_nfa.c:1039-1051 | the mirror image for forward constraints |
| `Optimizer.PlainBegins` | tcl/generic/regc_nfa.c:903-910 | turning the `^` arcs left at pre into arcs of the bos pseudocolours keeps the accepted words |
| `Optimizer.Pullback` | tcl/generic/regc_nfa.c:867-911 | same accepted words; when it finishes no `^` or BEHIND arc is left; where the arcs other than PLAIN ones have no cycle it always finishes, and leaves them so |
| `Optimizer.PlainEnds` | tcl/generic/regc_nfa.c:1060-1067 | turning the `$` arcs left at post into arcs of the eos pseudocolours keeps the accepted words |
| `Optimizer.Pushfwd` | tcl/generic/regc_nfa.c:1024-1068 | same accepted words; when it finishes no `$` or AHEAD arc is left; where the arcs other than PLAIN ones have no cycle it always finishes |
| `Cleanup.MarkReachable` | tcl/generic/regc_nfa.c:1391-1407 | marks what arcs lead to through states with the old mark, and nothing else |
| `Cleanup.MarkCanReach` | tcl/generic/regc_nfa.c:1415-1431 | marks what leads there through states with the old mark, and nothing else |
| `Cleanup.ClearTraverse` | tcl/generic/regc_nfa.c:783-797 | clears the mark and those that arcs through marked states lead to |
| `Cleanup.MarkPaths` | tcl/generic/regc_nfa.c:1361-1362 | afterwards marked with post are exactly the states on a path from pre to post |
| `Cleanup.TrimKeeps` | tcl/generic/regc_nfa.c:1349-1383 | dropping some, none or all of the arcs off the paths from pre to post keeps the accepted words |
| `Cleanup.DropUnmarked` | tcl/generic/regc_nfa.c:1363-1368 | exactly the states that are neither flagged nor marked with post are dropped, with their arcs and marks |
| `Cleanup.Renumber` | tcl/generic/regc_nfa.c:1378-1382 | the numbering is a bijection onto 0, ..., nstates - 1, in the order of the chain |
| `Cleanup.AllCleared` | tcl/generic/regc_nfa.c:1370-1371 | the traversal from pre clears every mark, since the marked states are on paths from pre |
| `Cleanup.Clean` | tcl/generic/regc_nfa.c:1349-1383 | exactly the states on a path from pre to post are left (and these two), exactly the arcs between them, renumbered, no state marked, same accepted words |
| `Optimizer.Analyze` | tcl/generic/regc_nfa.c:1438-1455 | impossible exactly if nothing leaves pre; empty match exactly if two arcs lead from pre to post |
| `Optimizer.EmptyMatchMeans` | tcl/generic/regc_nfa.c:1438-1455 | with PLAIN arcs only, two arcs lead from pre to post exactly if a word of two symbols is accepted |
| `Optimizer.NoPathNoWord` | tcl/generic/regc_nfa.c:1438-1455 | without a path from pre to post nothing is accepted |
| `Optimizer.ImpossibleMeansNoPath` | tcl/generic/regc_nfa.c:1438-1455 | after a cleanup, nothing leaves pre exactly if there is no path from pre to post |
| `Optimizer.Optimize` | tcl/generic/regc_nfa.c:833-860 | same accepted words; where the arcs other than PLAIN ones have no cycle it always finishes; acyclic EMPTY arcs are gone after enough passes; when it finishes only PLAIN and LACON arcs are left and no LACON leaves pre or enters post, every state is on a path from pre to post, the numbering is a bijection, no marks are left, impossible is reported exactly if there is no path, and empty match, without LACON arcs, exactly if some word of two symbols is accepted |
| `Compaction.ArcList` | tcl/generic/regc_nfa.c:1506-1535 | the list of a state holds exactly its arcs, renumbered, LACON labels shifted above the colours |
| `Compaction.MarkNoProgress` | tcl/generic/regc_nfa.c:1543-1546 | marked are exactly pre and the states next to it |
| `Compaction.Compact` | tcl/generic/regc_nfa.c:1462-1547 | the compact automaton lists, for each state number, exactly the arcs of that state |
| `Compaction.CompactionCorrect` | tcl/generic/regc_nfa.c:1462-1547 | the compact automaton accepts exactly the words of the NFA, and is as the executor expects it |
| `Simulation.FirstSet` | tcl/generic/rege_dfa.c:68-79 | the state set before the first character is one step out of pre over the symbol before it |
| `Simulation.NextSet` | tcl/generic/rege_dfa.c:102-114 | each state set is one step from the one before |
| `Simulation.MatchInside` | tcl/generic/rege_dfa.c:145-154 | a match ends before a character exactly if the set one step later has post |
| `Simulation.MatchAtStop` | tcl/generic/rege_dfa.c:122-139 | a match ends at the end of the string exactly if one more step, over the eos symbol, reaches post |
| `Simulation.NothingMatches` | tcl/generic/rege_dfa.c:107-109 | where the state set is empty, no match ends any more |
| `SubsetStep.FollowColor` | tcl/generic/rege_dfa.c:511-533 | the first half of a miss: exactly the states that arcs of the colour lead to, and their flags |
| `SubsetStep.ClosurePass` | tcl/generic/rege_dfa.c:537-562 | one round of the closure over lookahead constraints stays within the step; a round without change is the end |
| `SubsetStep.Target` | tcl/generic/rege_dfa.c:511-566 | the set a miss computes is the step of plain subset simulation, with the right flags; if no constraint was met on the way it is the step at every position |
| `CacheLinks.UnlinkedLinked` | tcl/generic/rege_dfa.c:684-696 | taking one out-arc off the in-chain it is on leaves all chains listing exactly the out-arcs that lead there |
| `CacheLinks.LinkedInLinked` | tcl/generic/rege_dfa.c:596-602 | and so does putting one on |
| `CacheRoom.FewStamps` | tcl/generic/rege_dfa.c:762-795 | different stamps within a window are no more than the window is wide |
| `CacheRoom.AllRecent` | tcl/generic/rege_dfa.c:762-795 | if no entry could be replaced, all entries but the starter would hold state sets of the last two thirds of the cache |
| `CacheRoom.TwoStates` | tcl/generic/rege_dfa.c:762-795 | with two states the cache cannot get full |
| `CacheRoom.ThreeStates` | tcl/generic/rege_dfa.c:762-795 | with three states some entry was not seen in the current attempt |
| `CacheRoom.RoomLeft` | tcl/generic/rege_dfa.c:766-795 | replacement never fails: in a full cache of the size used some entry is unlocked and was last seen before the window |
| `CacheState.EvictTracking` | tcl/generic/rege_dfa.c:703-715 | after a replacement, stamps and `lastpost`, `lastnopr` still give the last accepting position and the last one without progress |
| `LazyDfa.Dfa.constructor` | tcl/generic/rege_dfa.c:314-384 | an empty cache is coherent |
| `LazyDfa.Dfa.ClearIns` | tcl/generic/rege_dfa.c:663-671 | all out-arcs to the entry, and no others, are cleared |
| `LazyDfa.Dfa.Unlink` | tcl/generic/rege_dfa.c:684-696 | one out-arc is taken off the in-chain of the entry it leads to |
| `LazyDfa.Dfa.ClearOuts` | tcl/generic/rege_dfa.c:677-697 | the entry is off all in-chains, and no out-arc of another entry changes |
| `LazyDfa.Dfa.FindVictim` | tcl/generic/rege_dfa.c:766-786 | the entry found is unlocked and its stamp is before the window; there being one, it is found |
| `LazyDfa.Dfa.PickNext` | tcl/generic/rege_dfa.c:725-796 | an unused entry, fresh, while there are any; else one that may be replaced |
| `LazyDfa.Dfa.Fold` | tcl/generic/rege_dfa.c:703-715 | the stamp of a replaced entry is folded into `lastpost` and `lastnopr` |
| `LazyDfa.Dfa.GetVacant` | tcl/generic/rege_dfa.c:645-718 | the entry got back is on no chain, the others keep their sets, and everything that was remembered still is |
| `LazyDfa.Dfa.Miss` | tcl/generic/rege_dfa.c:483-604 | a miss gives the entry that holds exactly the step of the state set, or NULL exactly if the step is empty; the cache stays coherent: distinct sets, right flags, every out-arc leads to the right entry, chains list exactly the out-arcs |
| `LazyDfa.Dfa.HitRight` | tcl/generic/rege_dfa.c:501-504 | an out-arc that is there leads to the step, whatever has been replaced in between |
| `LazyDfa.Dfa.Initialize` | tcl/generic/rege_dfa.c:439-475 | the starter is there, all other stamps are forgotten |
| `LazyDfa.Dfa.Advance` | tcl/generic/rege_dfa.c:102-114 | after a character the current entry holds the set of plain subset simulation at that position |
| `LazyDfa.Dfa.LastPost` | tcl/generic/rege_dfa.c:145-151 | the greatest position whose set had post, replaced entries included |
| `LazyDfa.Dfa.Shutdown` | tcl/generic/rege_dfa.c:122-156 | what the end of an attempt reports is the greatest end |
| `LazyDfa.Dfa.Longest` | tcl/generic/rege_dfa.c:38-157 | exactly the greatest end in [start, stop] at which the automaton matches in its context, NULL exactly if there is none; hitstop exactly if the end of the string was reached alive |
| `LazyDfa.Dfa.LastCold` | tcl/generic/rege_dfa.c:289-306 | the last position at which no progress had been made, the start counting as one |
| `LazyDfa.Dfa.Shortest` | tcl/generic/rege_dfa.c:165-282 | exactly the least end in [min, max], NULL exactly if there is none; the cold position is the last one without progress up to there |
| `SearchNfa.LoopsUnused` | tcl/generic/regcomp.c:556-569 | loops at pre are of no use once pre has been left |
| `SearchNfa.AddLoops` | tcl/generic/regcomp.c:550-569 | the loops of an implicit `.*` are added unless every arc out of pre is a bos arc |
| `SearchNfa.ListSplits` | tcl/generic/regcomp.c:584-601 | the states listed in the mark fields are exactly those that are entered from pre and from elsewhere, each once, but the one listed first perhaps once more |
| `SearchNfa.SplitState` | tcl/generic/regcomp.c:608-618 | the state keeps the arcs from pre, its double gets the others, and both have its out-arcs |
| `SearchNfa.SplitKeepsProper` | tcl/generic/regcomp.c:607-622 | a split keeps the accepted words |
| `SearchNfa.SplitAll` | tcl/generic/regcomp.c:603-622 | all listed states are split, one that is listed twice a second time to no effect, and the marks are cleared |
| `SearchNfa.MakeSearch` | tcl/generic/regcomp.c:538-622 | the search NFA is the optimized one with loops at pre, and the states next to pre are entered from pre only |
| `Compile.NfaNode` | tcl/generic/regcomp.c:1885-1913 | optimizing and compacting the arcs of a node gives an automaton that accepts exactly their words, and comes to an end where those other than PLAIN ones have no cycle |
| `Compile.SearchNode` | tcl/generic/regcomp.c:416-424 | the compact search automaton fits the arcs that it was made from; it is made where those other than PLAIN ones have no cycle |
| `Compile.SearchPair` | tcl/generic/regcomp.c:416-424 | the main automaton and the search automaton fit together in every text of the colours in use |
| `Search.Thread` | tcl/generic/regcomp.c:538-622 | every match is a run of the search automaton from the beginning of the string that leaves pre where the match begins |
| `Search.SearchExact` | tcl/generic/regcomp.c:538-622 | the search automaton accepts up to `e` exactly if some match ends at `e` |
| `Search.ColdMeansCold` | tcl/generic/regexec.c:346-368 | where the search automaton has made no progress, no match that began before is under way |
| `Search.StartRange` | tcl/generic/regexec.c:346-368 | from the cold position to the least end there is a start, and there is none before |
| `Search.FindRange` | tcl/generic/regexec.c:318-337 | NULL exactly if nothing matches; otherwise the range holds the leftmost start |
| `Search.TryStarts` | tcl/generic/regexec.c:350-369 | the loop always finds an end, at the least start, and the end is the longest, or under SHORTER the shortest |
| `Execute.SimpleFind` | tcl/generic/regexec.c:301-396 | OK exactly if some match exists, and then the leftmost one with the preferred end; each group whose number no other has, and for which there is room, has exactly the stretch over which it takes part in that match, or (-1, -1) if it does not; NOMATCH leaves the vector alone |
| `Execute.ZapSubexpressions` | tcl/generic/regexec.c:537-547 | all entries but the whole match say that nothing was captured |
| `Execute.PinDown` | tcl/generic/regexec.c:375-395 | the vector gets the whole match and what the dissection captures |
| `Execute.GroupEntry` | tcl/generic/regexec.c:301-396 | an entry of a group is unset or a substring of the match that a node with its number accepts |
| `Execute.GroupTold` | tcl/generic/regexec.c:301-396 | a group whose number no other has is set exactly if it takes part in the match, and then to its stretch |
| `Groups.CapturesTakePart` | tcl/generic/regexec.c:606-776 | what dissection records is exactly what takes part: a group over what it matches, of a concatenation what is on either side of the point that the left part prefers, of alternatives what is in the first one that accepts |
| `Groups.TakesPartOnce` | tcl/generic/regexec.c:606-776 | a group whose number no other has takes part over one stretch at most |
| `Groups.RecordedTells` | tcl/generic/regexec.c:583-599 | and its entry in the vector tells which, or that there is none |
| `Execute.WholeMatch` | tcl/generic/regexec.c:301-396 | entry 0 is the whole match |
| `Dissection.Subset` | tcl/generic/regexec.c:583-599 | a capture is recorded if the vector has room for its number |
| `Dissection.Midpoint` | tcl/generic/regexec.c:680-727 | the midpoints the left part accepts are gone through in its order of preference; the first one is found from which the right part reaches the end, NULL exactly if there is none |
| `Dissection.ConcatenationDissect` | tcl/generic/regexec.c:651-741 | fails exactly if the concatenation does not match; captures are those of the preferred split |
| `Dissection.AlternationDissect` | tcl/generic/regexec.c:748-776 | fails exactly if no alternative matches; captures are those of the first one that does |
| `Dissection.Dissect` | tcl/generic/regexec.c:606-643 | dissection is total: on a substring that the tree accepts it never fails, and the vector records exactly the captures of that match |
| `Dissection.CapturesSound` | tcl/generic/regexec.c:606-776 | captures lie inside the match of their parents, each inside or after the ones before, and each was accepted by its node |
| `Dissection.RecordedEntry` | tcl/generic/regexec.c:583-599 | each entry is what the last capture of its number recorded |
| `Fragments.CopySpeaksAlike` | tcl/generic/regc_nfa.c:715-776 | a copy of a fragment, strung between two other states, has the same words |
| `Fragments.InARow` | tcl/generic/regcomp.c:1310-1388 | two fragments in a row are a fragment of the concatenated words |
| `Fragments.InParallel` | tcl/generic/regcomp.c:633-704 | one more alternative adds its words |
| `Fragments.StarWords` | tcl/generic/regcomp.c:1338-1345 | a fragment looped around its new state has the words repeated any number of times |
| `Fragments.PlusWords` | tcl/generic/regcomp.c:1358-1367 | a fragment with a loopback arc has the words repeated once or more |
| `Duplicate.DupTraverse` | tcl/generic/regc_nfa.c:740-776 | the duplicates of what can be reached are made, each once, and the arcs copied between them |
| `Duplicate.DupNfa` | tcl/generic/regc_nfa.c:715-733 | the duplicate is a copy of the fragment between the given states, nothing else changes, and all marks are cleared |
| `Duplicate.DuplicateSpeaksAlike` | tcl/generic/regc_nfa.c:715-733 | a duplicate has exactly the words of the original |
| `Duplicate.AllMarksCleared` | tcl/generic/regc_nfa.c:728-732 | the traversal from the start clears every mark |
| `Deletion.DelTraverse` | tcl/generic/regc_nfa.c:671-704 | deletes the arcs out of a state and the states that nothing enters any more, and puts the marks back |
| `Deletion.DelSub` | tcl/generic/regc_nfa.c:648-663 | exactly the arcs of the fragment and the states inside it are gone, and no marks are left |
| `Repetition.RepeatNone` | tcl/generic/regcomp.c:1326-1329 | {0,0} leaves the empty word |
| `Repetition.RepeatStar` | tcl/generic/regcomp.c:1338-1345 | {0,} gives any number of words of the fragment |
| `Repetition.RepeatPlus` | tcl/generic/regcomp.c:1358-1367 | {1,} gives one word of the fragment or more |
| `Repetition.RepeatMore` | tcl/generic/regcomp.c:1348-1383 | a repeated duplicate in front of the fragment |
| `Repetition.Repeat` | tcl/generic/regcomp.c:1310-1388 | the fragment has exactly the words of m to n words of the old one in a row, for all m and n, unbounded ones included; it terminates, leaves no marks, touches nothing outside, brings in no labels, leaves all states within reach if they were, and makes no cycle of arcs other than PLAIN ones, unless what is repeated without bound has a way through without PLAIN arcs |
| `Repetition.SuppleStarred` | tcl/generic/regcomp.c:1338-1345 | looping a fragment around a state makes no cycle of arcs other than PLAIN ones, if a ranking may put its ends anywhere |
| `Repetition.SupplePlussed` | tcl/generic/regcomp.c:1358-1367 | nor does a loopback arc, and then a ranking may still put its ends anywhere |
| `Climbing.SuppleInARow` | tcl/generic/regcomp.c:1348-1383 | of two fragments in a row, one whose ends may be ranked anywhere is enough for the whole |
| `Climbing.SuppleBeside` | tcl/generic/regcomp.c:663-669 | of alternatives, all have to be such |
| `Framing.FramedAccepts` | tcl/generic/regc_nfa.c:804-826 | an NFA with a fragment in its frame accepts exactly: one symbol, what a word of the fragment reads, one symbol |
| `NodeBuild.NewNfa` | tcl/generic/regc_nfa.c:65-79 | a new NFA has the frame: any symbol or bos before, any symbol or eos after |
| `NodeBuild.NodeNfa` | tcl/generic/regcomp.c:1885-1913 | the automaton of a node matches what the words of its fragment match, as a substring in its context; it is made where the arcs of the fragment other than PLAIN ones have no cycle |
| `NodeBuild.NodeMatches` | tcl/generic/regcomp.c:1885-1913 | in texts of the colours in use, such an automaton matches [b,e) exactly if a word of the fragment does |
| `TreeBuild.CatMatches` | tcl/generic/regexec.c:651-741 | a concatenation matches exactly where a split matches |
| `TreeBuild.DescribedIsComposed` | tcl/generic/regcomp.c:1863-1878 | a tree whose fragments compose is one whose node automata compose, as dissection needs it |
| `TreeBuild.CompiledIsReady` | tcl/generic/regcomp.c:266-451 | what the compiler hands over is what the executor requires, for every text in the colours in use, if the fragments of the tree compose |
| `Grammar.ReadsBack` | tcl/generic/regcomp.c:632-687 | every expression, written out with parentheses around all its parts, is read as one with the same words |
| `Syntax.ReadsExpressions` | tcl/generic/regcomp.c:632-1080 | by an independent grammar of branches, pieces, atoms, groups and quantifiers: tokens are read exactly if they are those of an expression, and with the words that it means |
| `Syntax.OneMeaning` | tcl/generic/regcomp.c:632-1080 | tokens that are those of two expressions mean the same by both |
| `Syntax.RefusedForFirstFault` | tcl/generic/regcomp.c:793-1080 | tokens are refused exactly if some token is at fault - a quantifier without anything before it, bounds out of order, a parenthesis without its partner - and for the first fault |
| `Syntax.FaultsAre` | tcl/generic/regcomp.c:793-1080 | which tokens are at fault: a quantifier at the start or after an opening parenthesis, a bar, a constraint or a quantifier; bounds out of order; a closing parenthesis that closes nothing, unless extended; the end, if a group is open |
| `Syntax.RepsAreWordsInARow` | tcl/generic/regcomp.c:1310-1388 | repetition is as many words in a row as the bounds allow, for any number of words at all above the lower one if there is no upper one |
| `Ways.WayReps` | tcl/generic/regcomp.c:1310-1388 | a repetition has a word that reads nothing exactly if none is asked for or what is repeated has one |
| `Reaching.ReachedDuplicate` | tcl/generic/regc_nfa.c:715-776 | all states of a duplicate can be reached if all states of the original can |
| `Parser.AtomBuilt` | tcl/generic/regcomp.c:906-925 | an atom or constraint is a fragment with the words of its labels |
| `Parser.OneMoreAlternative` | tcl/generic/regcomp.c:663-669 | a branch hung in by EMPTY arcs adds its words to those of the branches before |
| `Parser.MovedBack` | tcl/generic/regcomp.c:732-735 | moving the right end of what there is back to a new state keeps its words |
| `Parser.OneMoreInRow` | tcl/generic/regcomp.c:731-741 | a piece strung behind the ones before appends its words to theirs |
| `Parser.Quantify` | tcl/generic/regcomp.c:991-1080 | an atom with a quantifier has m to n of its words in a row; {0} cancels it; m above n is refused; arcs other than PLAIN ones get no cycle unless something is repeated without bound that may read nothing |
| `Parser.ParseQatom` | tcl/generic/regcomp.c:793-1080 | a constraint or an atom with its quantifier is read and becomes a fragment with its words, or the first error is reported; its arcs other than PLAIN ones have no cycle if what is repeated without bound reads something |
| `Parser.ParseGroup` | tcl/generic/regcomp.c:931-965 | a group is hung in between states of its own and has the words of the expression inside |
| `Parser.ParseBranch` | tcl/generic/regcomp.c:726-752 | a branch is read and becomes a fragment with the words of its pieces in a row, the empty word without any |
| `Parser.Parse` | tcl/generic/regcomp.c:646-687 | an expression is read and becomes, between the given states, a fragment with exactly its words, all states of which can be reached, and whose arcs other than PLAIN ones have no cycle if what is repeated without bound reads something, with nothing else changed; otherwise the first error is reported |
| `CompileRe.CompileTokens` | tcl/generic/regcomp.c:266-451 | tokens are refused exactly if one is at fault, for the first fault, and otherwise are those of an expression; what is compiled accepts, in every string of the colours in use, just what a word that the expression means says of the string, and is what the executor requires; if all that is repeated without bound reads something, compiling always finishes |
| `CompileRe.MatchIsWord` | tcl/generic/regexec.c:301-396 | a match is found exactly if a word of the expression says that the string goes on like this somewhere |
| `CompileRe.ReportedIsPreferred` | tcl/generic/regexec.c:301-396 | what is reported as the whole match is said by a word at the least possible start, and of what is said from there it is the longest, or under SHORTER the shortest |
| `CompileRe.FoundAtBegin` | tcl/generic/regcomp.c:799-812 | an expression all of whose words begin with `^` is found exactly if the rest of a word holds from the beginning of the string, and REG_NOTBOL is not given |
| `CompileRe.CaretIsFound` | tcl/generic/regcomp.c:799-812 | `^a` is found exactly in strings that begin with `a`, without REG_NOTBOL |
| `Meaning.EndSymbols` | tcl/generic/rege_dfa.c:68-79 | the symbol before a position is a bos pseudocolour exactly at the beginning of the string, the one for REG_NOTBOL exactly under that flag, and so for eos and REG_NOTEOL; elsewhere it is the character there |
| `Meaning.ReadableIsPasses` | tcl/generic/rege_dfa.c:122-139 | a label can be read exactly where it holds of the string: `^` at the beginning, `$` at the end, each as the flags have it, BEHIND and AHEAD by the characters there |
| `Meaning.LanguageIsSaying` | tcl/generic/rege_dfa.c:38-157 | a word of a fragment matches exactly if it says so of the string |
| `Meaning.AnchoredAtBegin` | tcl/generic/regcomp.c:799-812 | a word that begins with `^` holds from 0 on only, and only without REG_NOTBOL |
| `Meaning.AnchoredAtEnd` | tcl/generic/regcomp.c:806-812 | a word that ends with `$` holds up to the end of the string only, and only without REG_NOTEOL |
| `ColorMap.ColorMap.constructor` | tcl/generic/regc_color.c:43-87 | every character is white, which has them all |
| `ColorMap.ColorMap.GetColor` | tcl/generic/regguts.h:205-217 | the tree gives the colour of the flat map |
| `ColorMap.ColorMap.MakePrivate` | tcl/generic/regc_color.c:178-201 | copying a shared block on write changes no colour |
| `ColorMap.ColorMap.SetColor` | tcl/generic/regc_color.c:155-207 | exactly one character changes colour in the flat map, through shared blocks too; the old colour is returned |
| `ColorMap.ColorMap.NewColor` | tcl/generic/regc_color.c:230-286 | a colour that was not in use is taken, from the free chain first; the chain holds exactly the free entries up to max |
| `ColorMap.ColorMap.FreeColor` | tcl/generic/regc_color.c:293-345 | the colour is free; if it was the highest, max drops below all free ones and these leave the chain; white stays |
| `ColorMap.ColorMap.PseudoColor` | tcl/generic/regc_color.c:352-364 | a colour that no character has |
| `ColorMap.ColorMap.NewSub` | tcl/generic/regc_color.c:399-421 | the colour has an open subcolour afterwards, or is one, or has only one character |
| `ColorMap.ColorMap.SubColor` | tcl/generic/regc_color.c:371-392 | the character is moved to the subcolour, and counted, and every earlier arc still means what it did |
| `ColorMap.ColorMap.SolidBlock` | tcl/generic/regc_color.c:532-544 | the solid block of a colour is made once |
| `ColorMap.ColorMap.HangBlock` | tcl/generic/regc_color.c:550-550 | exactly the characters of the block change colour |
| `ColorMap.ColorMap.RecolorRun` | tcl/generic/regc_color.c:566-569 | exactly a run of characters changes colour |
| `ColorFacts.MoveKeepsTally` | tcl/generic/regc_color.c:550-573 | moving characters from a colour to another and recounting keeps every count right |
| `ColorFacts.CountsAddUp` | tcl/generic/regc_color.c:43-87 | the counts of all full colours add up to the number of characters |
| `ColorSession.SessionTake` | tcl/generic/regc_color.c:371-421 | moving characters to a subcolour and adding an arc of it lists exactly these characters, and earlier arcs keep their meaning |
| `ColorSession.SessionClose` | tcl/generic/regc_color.c:602-633 | closing a pair with parallel arcs, or with recoloured arcs if the parent is empty, changes nothing in what arcs let through |
| `ColorSession.SessionEnd` | tcl/generic/regc_color.c:581-635 | with no subcolour open, every arc lets through exactly what it did, and the new ones exactly the listed characters |
| `ColorArcs.SubBlock` | tcl/generic/regc_color.c:476-574 | exactly the characters of the block are listed, whether it is shared or mixed |
| `ColorArcs.SubRange` | tcl/generic/regc_color.c:429-469 | exactly the characters of the range are listed |
| `ColorArcs.OkColors` | tcl/generic/regc_color.c:581-635 | no subcolour is open any more, and what arcs let through is unchanged |
| `Brackets.Bracket` | tcl/generic/regcomp.c:1396-1408 | afterwards a PLAIN arc from lp to rp has the colour of a character exactly if one had before or some item is the character or a range with it; all other arcs denote the same characters as before |
| `Brackets.BracketPart` | tcl/generic/regcomp.c:1453-1561 | one character or range is listed |
| `Brackets.ItemsList` | tcl/generic/regcomp.c:1453-1561 | a range lists its first and its last character and all between |
| `Brackets.ColorComplement` | tcl/generic/regc_color.c:715-735 | arcs are added for exactly the colours that no PLAIN arc out of the state has |
| `Brackets.ComplementExact` | tcl/generic/regc_color.c:715-735 | they let through exactly the characters that no PLAIN arc out of the state does |
| `Brackets.CBracket` | tcl/generic/regcomp.c:1418-1446 | the same with the characters that no item lists; the dummy is gone and all other arcs denote what they did |
| `Brackets.RainbowOf` | tcl/generic/regc_color.c:688-706 | arcs are added for exactly the full colours but one |
| `Brackets.RainbowLets` | tcl/generic/regc_color.c:688-706 | of the characters, a rainbow lets through exactly those that do not have the colour left out, open subcolours or not; with none open, exactly those of other colours |
| `AllocFacts.CountFills` | tcl/generic/tclAlloc.c:409-414 | the blocks of a bucket fill an arena exactly |
| `AllocFacts.BucketSizes` | tcl/generic/tclAlloc.c:409-414 | the sizes of the buckets are 16, 32, and so on up to 16384 |
| `AllocFacts.LeastIsLeast` | tcl/generic/tclAlloc.c:324-335 | no smaller bucket holds the request and the overhead |
| `AllocFacts.SlotsApart` | tcl/generic/tclAlloc.c:425-436 | different small blocks have no memory in common |
| `AllocHeap.ArenaIsPartitioned` | tcl/generic/tclAlloc.c:394-502 | every byte of an arena belongs to exactly one block, which is in use or in the list of its bucket and in no other |
| `AllocHeap.UsedBlock` | tcl/generic/tclAlloc.c:479-495 | the bucket index in front of a block in use tells a small block of that bucket from one in the ring |
| `AllocLinks.RingInsert` | tcl/generic/tclAlloc.c:292-295 | the ring stays linked both ways when a block joins it |
| `AllocLinks.RingRemove` | tcl/generic/tclAlloc.c:485-488 | and when one leaves it |
| `AllocLinks.RingReplace` | tcl/generic/tclAlloc.c:566-574 | and when one has been moved by the system |
| `Allocator.Allocator.MoreCore` | tcl/generic/tclAlloc.c:395-437 | the new blocks are linked up in the list of the bucket; blocks in use are not affected |
| `Allocator.Allocator.Alloc` | tcl/generic/tclAlloc.c:261-374 | a block that was not in use: the first of the list of the least sufficient bucket, or of a new arena if there is none, or from the system for large requests; all other blocks keep place, size and contents; NULL only if the system gives NULL or the size would wrap around |
| `Allocator.Allocator.Free` | tcl/generic/tclAlloc.c:456-502 | the block is in use no more and is the first of the list of its bucket, the others are unchanged; freeing a block that is free does nothing |
| `Allocator.Allocator.ReallocBig` | tcl/generic/tclAlloc.c:554-593 | a big block keeps its contents and its place in the ring wherever the system moves it |
| `Allocator.Allocator.Realloc` | tcl/generic/tclAlloc.c:521-631 | the bytes that both sizes have are kept and all other blocks are untouched; a small block stays exactly if size and overhead fit and are at least half of it; NULL only for a free block, if the system gives NULL, or if the size would wrap around |
| `AsyncProtocol.StepKeepsGood` | tcl/generic/tclAsync.c:114-316 | every section that holds the mutex keeps: asyncActive implies that asyncReady is off, otherwise a marked handler implies that it is on; the list is in the order of creation |
| `AsyncProtocol.PickIsEarliest` | tcl/generic/tclAsync.c:228-238 | the handler that is run is the earliest created of the marked ones |
| `AsyncProtocol.NoNesting` | tcl/generic/tclAsync.c:208-211 | an invocation cannot be entered while one goes on |
| `AsyncProtocol.NoLostMarks` | tcl/generic/tclAsync.c:114-316 | in every interleaving, a handler that was marked at some moment is run later, if it is not deleted and the run ends with nothing going on and nothing asked for |
| `AsyncProtocol.MarkedIsServed` | tcl/generic/tclAsync.c:114-316 | and so is every handler that is marked when the run begins |
| `AsyncProtocol.RunsAreMarked` | tcl/generic/tclAsync.c:195-246 | between two runs of a handler it was marked |
| `AsyncProtocol.EndsWithNoneReady` | tcl/generic/tclAsync.c:228-245 | an invocation that ends leaves no handler marked |
| `Async.ThreadData.AsyncCreate` | tcl/generic/tclAsync.c:114-140 | the handler joins the list at its end, of which lastHandler is the true tail |
| `Async.ThreadData.AsyncMark` | tcl/generic/tclAsync.c:162-174 | the handler is marked and no other is, asyncReady is turned on unless an invocation goes on, and only then the thread is to be woken |
| `Async.ThreadData.Invoke` | tcl/generic/tclAsync.c:195-244 | nothing if asyncReady is off; otherwise it is turned off, and the first marked handler on the list is picked and its mark taken away, or there was none and the invocation ends |
| `Async.ThreadData.InvokeNext` | tcl/generic/tclAsync.c:228-244 | after a handler has returned the scan starts again from the first: the first marked handler then is picked, or there was none and the invocation ends |
| `Async.ThreadData.AsyncDelete` | tcl/generic/tclAsync.c:273-316 | exactly the handler is off the list; an empty list is tolerated, another thread or an unknown handler panics |
| `CoroutineLevels.StepGood` | tcl/generic/tclBasic.c:8635-8762 | every step keeps the accounts: the level is that of the commands on the chain of active environments, an active coroutine stores the level of its caller, a suspended one its own depth |
| `CoroutineCalls.RunGood` | tcl/generic/tclBasic.c:8635-8762 | in every interleaving of creation, resumption, yield, return and injection |
| `CoroutineCalls.CallKeepsLevel` | tcl/generic/tclBasic.c:8635-8762 | a call into a coroutine during which nothing is injected, with anything nested in it, leaves the level of the caller as it was if and only if it comes back by a yield or the coroutine stored, before the call, just as many levels as it had commands; the other coroutines that could be called on the way are to do so |
| `CoroutineCalls.PlainCallKeepsLevel` | tcl/generic/tclBasic.c:8635-8762 | in a run in which nothing is injected every call keeps the level of the caller |
| `CoroutineCalls.LevelIsCommands` | tcl/generic/tclBasic.c:8635-8762 | in every reachable state the level is that of the commands begun in the active environments, less what suspended coroutines store beyond their own commands |
| `CoroutineCalls.CallConserves` | tcl/generic/tclBasic.c:8635-8762 | whatever is injected before or during a call, the level of the caller and what suspended coroutines store beyond their commands add up to the same before and after it |
| `CoroutineCalls.SurplusIsHistory` | tcl/generic/tclBasic.c:8766-8808 | what a suspended coroutine stores beyond its commands is the number of commands that it has injected, less those injected into it, and what coroutines that ended under it left behind |
| `CoroutineCalls.StoredLevels` | tcl/generic/tclBasic.c:8720-8757 | in every run, a suspended coroutine stores its commands, less one, and what its history of injections adds; an active one the level of its caller |
| `CoroutineLevels.RefusedYield` | tcl/generic/tclBasic.c:8737-8743 | a yield refused because the C stack is busy changes nothing |
| `CoroutineCalls.YieldsWhereResumed` | tcl/generic/tclBasic.c:8735-8757 | whatever has happened since it was resumed, a coroutine that runs can yield exactly if the C stack is where it was then, and whoever resumed it goes on |
| `CoroutineLevels.InjectedCounts` | tcl/generic/tclBasic.c:8766-8808 | an injected command raises the level of the one who injects it, although none of its own commands has begun |
| `CoroutineCalls.InjectionLowersLevel` | tcl/generic/tclBasic.c:8766-8808 | a run from the start, with one injected command, in which a call starts at level 2 and leaves level 1: the level is not always kept |
| `Coroutines.Interp.EvalObjv` | tcl/generic/tclBasic.c:4158-4169 | a command begins: callback and level |
| `Coroutines.Interp.CommandCallback` | tcl/generic/tclBasic.c:4339-4351 | a command has ended: its callback is gone and the level is one less |
| `Coroutines.Interp.CoroutineObjCmd` | tcl/generic/tclBasic.c:8961-8998 | a new coroutine has one command begun in its own environment, is resumed at once, and the level is what it was |
| `Coroutines.Interp.MakeCoroutine` | tcl/generic/tclBasic.c:8961-8990 | before it is resumed, the new coroutine is suspended with depth 0 |
| `Coroutines.Interp.ActivateCallback` | tcl/generic/tclBasic.c:8696-8762 | resume and yield, field by field: a resumed coroutine remembers who called it, at which level and where the C stack was, and adds what it had stored to the level; a yield gives the caller its level back and stores the rest; refused exactly if the C stack is elsewhere |
| `Coroutines.Interp.CallerCallback` | tcl/generic/tclBasic.c:8590-8634 | the environment that resumed a coroutine goes on, level untouched |
| `Coroutines.Interp.ExitCallback` | tcl/generic/tclBasic.c:8636-8681 | the coroutine is gone, the caller goes on and gets the level back that the coroutine command had taken |
| `Coroutines.Interp.CoroutineCommand` | tcl/generic/tclBasic.c:8811-8861 | refused exactly if the coroutine is running |
| `Coroutines.Interp.YieldObjCmd` | tcl/generic/tclBasic.c:8445-8472 | refused outside a coroutine or with the C stack elsewhere |
| `Coroutines.Interp.InjectObjCmd` | tcl/generic/tclBasic.c:8766-8808 | refused exactly if the coroutine is not suspended; otherwise a command is on top of its callbacks, and the level is one more |
| `Random.Schrage` | tcl/generic/tclBasic.c:7751-7755 | the IQ/IR form is 16807 times the seed modulo 2^31 - 1 |
| `Random.NextIsProper` | tcl/generic/tclBasic.c:7720-7727 | seeds stay between 1 and 2^31 - 2 |
| `Random.NextIsInjective` | tcl/generic/tclBasic.c:7720-7727 | different seeds have different successors |
| `Random.NextIsOnto` | tcl/generic/tclBasic.c:7720-7727 | and every seed is the successor of one, so that the recurrence permutes the seeds |
| `Random.NeverStuck` | tcl/generic/tclBasic.c:7889-7894 | from whatever srand is given, no call ever leaves the proper seeds |
| `Random.SeededIs` | tcl/generic/tclBasic.c:7889-7894 | started with any number at all, only its low 31 bits count, and all of them do: 42 is 42 |
| `Random.SeededIsXor` | tcl/generic/tclBasic.c:7891-7894 | what moves the two excluded seeds away is an exclusive or |
| `Random.Interp.Rand` | tcl/generic/tclBasic.c:7681-7770 | the next seed is 16807 times the last one modulo 2^31 - 1, with no intermediate outside 32 bits, and the number is that over 2^31 - 1, strictly between 0 and 1 |
| `Random.Interp.Srand` | tcl/generic/tclBasic.c:7849-7904 | the next seed is 16807 times what the argument gives modulo 2^31 - 1 |
| `Base64Encode.SizeIsExact` | tcl/generic/tclBinary.c:2507-2515 | the precomputed size is exactly the size of the wrapped text |
| `Base64Encode.Output` | tcl/generic/tclBinary.c:2446-2460 | a character is put out, and a wrap if the line is full and it was not the last; the limit is never passed |
| `Base64Encode.Encode` | tcl/generic/tclBinary.c:2463-2540 | the text is the digits of the bytes, laid out with the wraps, and fills its space exactly: the "limit hit" panic cannot happen |
| `Base64Encode.LaidInLines` | tcl/generic/tclBinary.c:2446-2460 | laid out means: lines of maxlen characters with the wrap between them and nowhere else |
| `Base64Decode.Decode` | tcl/generic/tclBinary.c:2655-2743 | by character codes: the first character that is no digit and no padding, and not one of 9 to 13 and 32 unless strict, is reported with its position; otherwise the result is what the significant characters say, in groups of four |
| `Base64Decode.DecodeGroups` | tcl/generic/tclBinary.c:2680-2743 | the loop: four values at a time become three bytes, values are made up at the end of the text, and what was made up or padded is cut off |
| `Base64Decode.UnpackAt` | tcl/generic/tclBinary.c:2724-2726 | the three bytes of a group are the 24 bits of its four values, the first one first |
| `Base64Decode.UnpaddedLength` | tcl/generic/tclBinary.c:2724-2735 | without padding, three bytes are kept for four values |
| `Base64.TableAgrees` | tcl/generic/tclBinary.c:120-130 | the table of digits is the one the decoder reads, that of section 4 of RFC 4648 |
| `Base64.Alphabet` | tcl/generic/tclBinary.c:120-130 | the table by character codes, that of section 4 of RFC 4648 |
| `Base64.DigitsAreBits` | tcl/generic/tclBinary.c:2518-2536 | the digits of three bytes are their 24 bits, the first byte first; one or two bytes at the end are filled up with zeros and padded |
| `Base64.QuadsGiveBytes` | tcl/generic/tclBinary.c:2518-2536 | the digits determine the bytes, with as much padding as the last group lacks |
| `Base64.RoundTrip` | tcl/generic/tclBinary.c:2686-2735 | decoding what was encoded gives back the bytes, for all bytes, every maxlen and every wrap made of the characters 9 to 13 and 32, the default newline among them; the text has only the characters of the alphabet and of the wrap |
| `Base64.TrailingBlanks` | tcl/generic/tclBinary.c:2686-2735 | white space - the characters 9 to 13 and 32 - after the encoded text costs its last byte: it is read back in full exactly if there is none; after the text of no bytes, up to four white-space characters do no harm, and more make the length -1 |

## Left out

Of the regex engine:

- Optimizer.Pullback: where arcs other than PLAIN ones have a cycle, takes a bound on the number of passes and says whether it sufficed; the source has no bound and, for such cycles, no measure either. What holds when it stops early is stated as well.
- Optimizer.Pushfwd: takes such a bound in the same case.
- Optimizer.Optimize: takes such a bound in the same case; the accepted words are kept at any rate, the shape of the result is claimed for runs that finish.
- NodeBuild.NodeNfa: passes such a bound on.
- Compile.NfaNode: passes such a bound on.
- Compile.SearchNode: passes such a bound on.
- Optimizer.PullPass: with a bound, how many arcs made during a pass it may come upon is bounded, too.
- Optimizer.PushPass: the same.
- Empties.EmptyPass: the same.
- Empties.FixEmpties: takes such a bound with EMPTY cycles, and then termination is not claimed.
- NfaModel.Nfa: the in-chains and out-chains of arcs are one set, since `newarc` refuses duplicates; the order in which loops visit arcs is arbitrary, so that what is proved holds for every order. Counters of arcs, batches of arcs and the free list of states are not modelled.
- ColorArcs.OkColors: parallel arcs of one colour, which recolouring could produce in the source, are one arc here, with the same meaning. The chains of arcs by colour are derived from the set of arcs.
- Compaction.ArcList: the order in which `carcsort` leaves a list is not modelled, only which arcs are on it.
- Duplicate.DupNfa: the limit on the depth of recursion is not modelled.
- Duplicate.DupTraverse: the same.
- NfaModel.Nfa.constructor: the initial and final states and the arcs of the frame are added in NodeBuild.NewNfa.
- Parser.ParseQatom: a token stands for the labels of its arcs in the final colours, at least one; what `onechr`, `bracket` and `rainbow` do while the colours are still being refined is in `ColorArcs` and `Brackets`. Of an atom without any arc, which a complemented bracket that leaves no character makes, `{0}` would leave states behind.
- Parser.Quantify: the hard part of `parseqatom`, with its skeleton of prefix, atom and rest for captures, back references and mixed preferences, is not modelled; nor are word boundaries, lookahead expressions (a constraint token stands for one), and the flags of tree nodes.
- TreeBuild.CompiledIsReady: that the fragments of a tree with captures compose is assumed; for expressions without captures `CompileRe` proves it.
- CompileRe.CompileTokens: takes such a bound, too, for expressions that repeat without bound something that may read nothing, as in `(a*)*`; that it finishes is claimed for all others.
- The lexer, locale tables and case folding are not part of this model.
- Allocation failure, REG_ESPACE, the cap on the number of states, and other error codes of the compiler.
- Brackets.CBracket: the newline arc under REG_NLSTOP is left out.
- Brackets.BracketPart: single characters and ranges; classes, equivalences and case are left out.
- REG_ICASE, collating elements of more than one character, REG_SMALL, REG_EXPECT and the extra details reported for it, traces and dumps.
- Characters of other than 16 bits: the colour map has two levels of 256.
- State sets are sets, not bit vectors, and the hash that makes comparing them faster is left out; pointers into the cache are indices.
- The meaning of lookahead constraints is an arbitrary predicate on positions; running their automata is not modelled.
- Back references: `complicatedFind` and the dissections with retry memory.
- Freeing of colour maps and trees; the numbering and marking of tree nodes.

Of the allocator:

- Memory is a map from addresses to blocks; the sizes of headers are those of 64-bit pointers. Sums of addresses do not wrap around; sums of sizes do not in the source's own guards.
- The system allocator is a parameter: an address that is not in use, or NULL; for a block that it moves, contents with the same prefix.
- Allocator.Allocator.Realloc: the mutex is not modelled; operations are one after the other. Realloc gives the mutex up between its steps, which is not modelled.
- Range checks, statistics, and the finalization of the subsystem.

Of asynchronous handlers:

- Waking a thread is a flag that is returned; what handlers do, other than marking and deleting, is not modelled.

Of coroutines:

- Coroutines.Interp.CallerCallback: the rewinding of a coroutine that was deleted while running is left out.
- Coroutines.Interp.CoroutineCommand: a wrong number of arguments is not modelled.
- Coroutines.Interp.YieldObjCmd: the same.
- Coroutines.Interp.InjectObjCmd: the same; and that the argument names a coroutine is assumed.
- CoroutineCalls.CallKeepsLevel: its condition is for calls during which nothing is injected; with injections `CoroutineCalls.CallConserves` says what is kept.
- The address of the C stack is an opaque number. Saved frames and contexts, argument counts, `yieldto`, deletion and rewinding are left out, and so are callbacks other than those that keep the accounts.

Of the random generator:

- Random.Interp.Rand: the quotient is a real number, without the rounding of doubles; the clock is a parameter.
- Random.Interp.Srand: how the argument, as a Tcl value, becomes an integer is left out.

Of base64:

- Byte strings are sequences of bytes; the parsing of options, the conversion from Tcl's strings, and the width of the integer in which the size is computed are not modelled.
- Base64Decode.Decode: the length of the result is the one computed; what the source's byte array does with a negative one, for a text of nothing but white space, is not modelled.
- The hex and uuencode formats.

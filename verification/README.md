# Galerina core compiler: verified models

Dafny models of the algorithms at the heart of Galerina's core compiler package, with proofs of what its documentation and
comments promise, and exact conditions where the code falls short of them. `dafny verify dfyconfig.toml` checks everything.

Code that updates state in place is modelled by classes and loops (`BytecodeCompiler`, `Cache`, `PatternParser`, `Emitter`,
`JsonScanner`, `AstReader`, `CycleDetector`, `GirEmitter`, and the methods over arrays, queues and stacks), each proved against
a specification function; the theorems are lemmas about those functions.

| topic | files |
|---|---|
| Bytecode compiler and machine | `Ast`, `I32`, `Vm`, `Source`, `Compiler`, `CompilerProof`, `Layout`, `Fragment`, `Correctness`, `Limits`, `CompileCache` |
| Escape analysis | `Escape`, `EscapeProof` |
| Effect checker | `Effects`, `EffectSoundness`, `EffectVerdict`, `Sequences`, `Closure`, `CallOrder`, `ClosureOrder`, `EditDistance` |
| Bounded cache | `BoundedCache`, `CacheProof`, `CacheMemory` |
| Patterns to circuits | `Pattern`, `Circuit`, `CircuitProof`, `PatternRoundTrip`, `PatternText`, `DrawingCost` |
| Checked-flow artifacts | `Utf8`, `Json`, `JsonRoundTrip`, `JsonGrammar`, `Artifact`, `ArtifactTree`, `ArtifactCodec`, `ArtifactRoundTrip`, `ArtifactWitness` |
| Canonical binary encoding | `Cbor`, `Gir`, `GirProof`, `GirMeaning`, `GirAccepts`, `GirRoot` |
| Circuits, call graphs and edits | `Containment`, `FlowDependencies`, `GeneratedComments`, `FixEdits` |

## How the main results are stated

- **Compiler.** `Source` evaluates the syntax tree directly: flow-wide variables that start at 0, both operands of `and`/`or`
  always evaluated, one loop budget for the whole run. `CompilerCorrect` equates it with the machine under three conditions a
  caller can check: distinct parameter names, no surplus argument that is not 0 once truncated, and a static stack need of at most
  256 cells. `Limits` shows that each is needed. `Fragment` says, from the tree alone, which flows are compiled.
- **Escape analysis.** The semantics runs any child of a node in any order and any number of times, so it covers every
  branch, loop and nested function; handles carry a record of where they leaked. Fields declared `Int` or `Bool`
  hold numbers there; any other may hold a handle.
- **Effects.** A flow is its qualifier, declared, observed and helper effects and its calls. Runs are sequences of calls,
  returns and performed effects over a call stack. `EffectVerdict` gives the verdict in both directions, from what flows
  declare, perform and reach.
- **Cache.** States are compared over whole runs of get, set, delete and clear, with the weight a refused resident leaves
  behind carried as an explicit drift.
- **Patterns.** `PatternText` reads a text off its characters into a pattern tree, by a grammar that does not mention the
  parser; matching is defined on the tree, with exact repetition as that many copies in a row; a circuit is run by following its
  wires.
- **Artifacts.** The codec is modelled from code units to UTF-8 bytes. The scanner is a position, a budget and a refusal; the
  printer is its inverse exactly within the scanner's bounds, and `JsonGrammar` says which texts mean which values.
- **Emitted functions.** `GirMeaning` runs a function from its document item and compares the answer with the trace's.

## Where the code and its documentation part

- A flow whose static stack need exceeds 256 cells is compiled anyway and answers 255 instead of trapping
  (`Limits.DeepSumsAnswer255`); a repeated parameter name shifts the arguments after it (`Limits.ArgumentsLandIffDistinct`);
  surplus arguments land in the slots of later variables (`Limits.SurplusIgnoredIff`).
- A safety prefix on an alias (`let unsafe s = r`) hides it from the escape analysis
  (`EscapeProof.PrefixedBindingIsMisjudged`).
- Effects performed by a helper nested in a pure flow are not checked (`EffectSoundness.AcceptedRunsAreDeclared`).
- A resident value refused as oversize leaves its weight behind, so the cache loses that capacity until it is cleared
  (`CacheProof.BooksExactIff`, `CacheProof.SetEvictsShortest`).
- The cache is documented to know every key it ever held. It forgets those deleted or cleared, as documented, and also a
  resident refused as oversize and a tombstone past its ceiling (`CacheMemory.KnownIff`).
- In a branching trace the second branch can answer with a result of the first, which was never computed
  (`GirProof.SiblingAnswerIff`, `GirMeaning.BranchAnswers`).
- A repeated flow name keeps only its last declaration's calls where the comments promise a union that never under-counts.
  `FlowDependencies.NothingMissedIff` and `ImpactCompleteIff` say exactly when nothing is missed, `FalseSafeToDeleteIff` when
  a flow in use is reported safe to delete; `ShadowedCallerIsLost` is an instance.
- An insertion kept before an edit of a span at the same column is eaten by it (`FixEdits.FixSimultaneousIff`,
  `FixEdits.InsertionSurvivesIff`).
- What draws is promised to be linear, with ceilings applied before expansion. The ceilings count parts: a repeated item that
  draws none, such as an empty group, is emitted as often as its count says at no part
  (`DrawingCost.WorkBoundedIff`, `DrawingCost.EmptyGroupWork`).
- The leftover list of the topological sort is described as the nodes of a cycle; it holds every node a cycle reaches
  (`CallOrder.TopoSort`).

## Model

| member | source | states |
|---|---|---|
| `Correctness.CompilerCorrect` | packages-ts/galerina-core-compiler/src/bytecode-vm.ts:74-291 | Compiler correctness: for every flow the compiler accepts, every loop cap and every argument list whose surplus, if any, is 0 once truncated, running the bytecode gives exactly the value or the trap of the structural evaluator `Source.EvalFlow`; and such a flow is in the fragment, so no node the machine has no code for takes part in that value |
| `Fragment.CompiledIff` | packages-ts/galerina-core-compiler/src/bytecode-vm.ts:96-290 | The compiler accepts a flow if and only if it is in a fragment read off the tree: no 64-bit type, parameters of integer type, a body block, and only statements, operators, 32-bit literals and names bound before, so calls, floats and unbound names are refused |
| `Fragment.LiteralIff` | packages-ts/galerina-core-compiler/src/bytecode-vm.ts:229-238 | A literal has a value if and only if its text without underscores has no point and reads as white space, at most one sign and the decimal digits of that number, within 32 bits |
| `Fragment.NamesIff` | packages-ts/galerina-core-compiler/src/bytecode-vm.ts:146-146 | The bound name is the text before the first colon, without the white space around it |
| `Fragment.ParamsInOrder` | packages-ts/galerina-core-compiler/src/bytecode-vm.ts:107-118 | Each parameter comes right after those declared before it |
| `CompilerProof.ExprCorrect` | packages-ts/galerina-core-compiler/src/bytecode-vm.ts:227-290 | Compiled expressions push exactly the source value, or trap as the source does, leaving the stack below and the locals alone |
| `CompilerProof.StmtCorrect` | packages-ts/galerina-core-compiler/src/bytecode-vm.ts:142-220 | Each statement's code ends where it should with the source's variables and iteration count, or returns or traps as the source does |
| `CompilerProof.BlockCorrect` | packages-ts/galerina-core-compiler/src/bytecode-vm.ts:136-140 | The same for a block, whichever statement stops it |
| `CompilerProof.IfElseCorrect` | packages-ts/galerina-core-compiler/src/bytecode-vm.ts:171-196 | Both backpatched jumps of an if/else select the branch the source selects |
| `CompilerProof.WhileCorrect` | packages-ts/galerina-core-compiler/src/bytecode-vm.ts:198-211 | The backward jump repeats the body exactly as often as the source does, against the one loop budget of the whole run |
| `CompilerProof.OperatorsAgree` | packages-ts/galerina-core-compiler/src/bytecode-vm.ts:68-72 | Operator text, opcode and 32-bit arithmetic name the same operation |
| `Layout.CompiledRunsOnTrack` | packages-ts/galerina-core-compiler/src/bytecode-vm.ts:96-134 | One depth table serves every run of a compiled program: at each dispatch the machine is at an opcode inside the code with the recorded stack depth, never underflows, and ends only by RETURN or a trap |
| `Layout.FlowLayout` | packages-ts/galerina-core-compiler/src/bytecode-vm.ts:120-134 | Every jump target of a compiled flow is an instruction boundary strictly inside the code |
| `Layout.TruncateIsExact` | packages-ts/galerina-core-compiler/src/bytecode-vm.ts:127-134 | Storing the emitted cells in a 32-bit array changes none of them |
| `Layout.RunsOnTrack` | packages-ts/galerina-core-compiler/src/bytecode-vm.ts:315-401 | Any laid-out code, compiled or not, keeps the machine on its depth table |
| `Layout.StmtBounded` | packages-ts/galerina-core-compiler/src/bytecode-vm.ts:142-220 | Recorded depths never exceed the static stack need |
| `Vm.HaltingBound` | packages-ts/galerina-core-compiler/src/bytecode-vm.ts:315-401 | Any code array, compiled or corrupt, dispatches at most (maxIterations + 1) * length opcodes |
| `Vm.StepProgress` | packages-ts/galerina-core-compiler/src/bytecode-vm.ts:315-401 | A dispatch that does not halt moves forward or spends one back-edge |
| `Vm.RunBytecode` | packages-ts/galerina-core-compiler/src/bytecode-vm.ts:315-401 | The loop over two reused buffers computes the specified run |
| `Vm.Dispatch` | packages-ts/galerina-core-compiler/src/bytecode-vm.ts:325-398 | One turn of the loop updates stack, locals, pc and back-edges as the step specification says, out-of-range typed-array accesses included |
| `Vm.LoadArguments` | packages-ts/galerina-core-compiler/src/bytecode-vm.ts:317-320 | Arguments fill the leading locals truncated to 32 bits; the others start at 0 |
| `Compiler.BytecodeCompiler.Compile` | packages-ts/galerina-core-compiler/src/bytecode-vm.ts:96-134 | The compiler object emits exactly the code, slots and refusals of the code specification |
| `Compiler.BytecodeCompiler.CompileBlock` | packages-ts/galerina-core-compiler/src/bytecode-vm.ts:136-140 | Statements append to the code in order |
| `Compiler.BytecodeCompiler.CompileStmt` | packages-ts/galerina-core-compiler/src/bytecode-vm.ts:142-220 | Statement dispatch, the unsupported kinds refused |
| `Compiler.BytecodeCompiler.CompileIf` | packages-ts/galerina-core-compiler/src/bytecode-vm.ts:171-196 | The placeholder of the conditional jump is patched to the address after the then-branch |
| `Compiler.BytecodeCompiler.CompileElse` | packages-ts/galerina-core-compiler/src/bytecode-vm.ts:182-190 | Both placeholders of an if/else are patched |
| `Compiler.BytecodeCompiler.CompileWhile` | packages-ts/galerina-core-compiler/src/bytecode-vm.ts:198-211 | The loop head, the exit placeholder and the backward jump |
| `Compiler.BytecodeCompiler.CompileExpr` | packages-ts/galerina-core-compiler/src/bytecode-vm.ts:227-290 | Expression code in operand order, literals outside 32 bits refused |
| `Compiler.BytecodeCompiler.SlotOf` | packages-ts/galerina-core-compiler/src/bytecode-vm.ts:87-94 | A name gets the next slot the first time it is seen and keeps it |
| `Limits.DeepSumsAnswer255` | packages-ts/galerina-core-compiler/src/bytecode-vm.ts:315-401 | The compiler does not check stack depth: on nested sums the machine agrees with the source if and only if the need is at most 256; past that it answers 255 without trapping |
| `Limits.ArgumentsLandIffDistinct` | packages-ts/galerina-core-compiler/src/bytecode-vm.ts:317-320 | Every argument reaches its parameter if and only if the parameter names are distinct |
| `Limits.SurplusIgnoredIff` | packages-ts/galerina-core-compiler/src/bytecode-vm.ts:315-320 | For any parameters and arguments, the machine answers as the source does for every body it accepts if and only if every surplus argument is 0 once truncated |
| `Correctness.CompiledFrom` | packages-ts/galerina-core-compiler/src/bytecode-vm.ts:315-320 | Whatever the arguments, running the bytecode evaluates the body in the environment that the first locals give, surplus arguments included |
| `CompileCache.BytecodeCache.CompileToBytecode` | packages-ts/galerina-core-compiler/src/bytecode-vm.ts:425-455 | A hit and a miss answer alike, and a flow never gets another program's code |
| `CompileCache.BytecodeCache.TryRunBytecode` | packages-ts/galerina-core-compiler/src/bytecode-vm.ts:461-472 | Only pure flows that compile are run; everything else is left to the caller |
| `CompileCache.FlowFound` | packages-ts/galerina-core-compiler/src/bytecode-vm.ts:437-441 | The flow compiled is the first child of a flow kind with that name, and none is found exactly when there is none |
| `I32.CheckedOpsAreExactOrTrap` | packages-ts/galerina-core-compiler/src/i32-arith.ts:39-59 | Sum, difference, product and negation give the exact integer when it fits 32 bits and trap otherwise; the multiply fast path hides no overflow |
| `I32.DivModTraps` | packages-ts/galerina-core-compiler/src/i32-arith.ts:61-70 | Division traps exactly on 0 and on -2^31 / -1, remainder only on 0 |
| `I32.DivModLaw` | packages-ts/galerina-core-compiler/src/i32-arith.ts:61-70 | Quotient and remainder satisfy the truncated division law |
| `EscapeProof.LocalRecordsStayLocal` | packages-ts/galerina-core-compiler/src/escape-analysis.ts:81-161 | Escape soundness: in every execution of a body with plain binding names, if the record does not escape, no handle allocated at one of its bindings is returned, passed or stored, and only variables of the alias closure hold one |
| `EscapeProof.ArenaRecordsHoldNoPointers` | packages-ts/galerina-core-compiler/src/escape-analysis.ts:275-287 | When the window gate opens, no field of any record allocated in the window holds a pointer, if fields declared Int or Bool hold numbers and any other field may hold a handle |
| `EscapeProof.GateIsExact` | packages-ts/galerina-core-compiler/src/escape-analysis.ts:219-287 | The gate admits a literal if and only if its type is known and has fields and no execution puts a pointer in any of them; for every field of a type other than Int and Bool some execution stores one |
| `EscapeProof.PrefixedBindingIsMisjudged` | packages-ts/galerina-core-compiler/src/escape-analysis.ts:52-54 | A safety prefix stays inside the name the analysis reads: on a family of bodies the verdict is wrong if and only if the text before the colon is not the declared variable |
| `EscapeProof.UnnamedLiteralLeavesTheWindow` | packages-ts/galerina-core-compiler/src/escape-analysis.ts:275-287 | A scalar-only literal returned without a name passes the window gate, and its handle leaves |
| `EscapeProof.ExecKeeps` | packages-ts/galerina-core-compiler/src/escape-analysis.ts:125-161 | Each execution step keeps the invariant that tracked handles stay in alias variables and out of fields |
| `Escape.ComputeAliases` | packages-ts/galerina-core-compiler/src/escape-analysis.ts:81-105 | The changed-loop returns the least set closed under alias bindings |
| `Escape.AliasSetUnique` | packages-ts/galerina-core-compiler/src/escape-analysis.ts:81-105 | That set is unique |
| `Escape.Visit` | packages-ts/galerina-core-compiler/src/escape-analysis.ts:129-160 | The flag says whether some alias stands outside a field read or a binding |
| `Escape.RecordEscapes` | packages-ts/galerina-core-compiler/src/escape-analysis.ts:125-161 | The per-record answer is that visit over the least alias set |
| `Escape.AnswerIff` | packages-ts/galerina-core-compiler/src/escape-analysis.ts:81-161 | A record escapes if and only if some name that it is passed on to, by bindings anywhere in the body, stands at a place the visit looks at, other than as the receiver of a field read or a whole initialiser |
| `Escape.LiteralsIff` | packages-ts/galerina-core-compiler/src/escape-analysis.ts:250-259 | The literals the gate looks at are the record-allocating nodes at any path of the window |
| `Escape.WindowIsArenaSafe` | packages-ts/galerina-core-compiler/src/escape-analysis.ts:275-287 | The gate opens exactly when every record literal of the window has only by-value fields |
| `EffectSoundness.AcceptedRunsAreDeclared` | packages-ts/galerina-core-compiler/src/effect-checker.ts:1248-1342 | Whole-run soundness: with distinct names, in an accepted program every governed effect performed while a flow is on the call stack is declared by that flow, if and only if no pure flow hides one in a nested helper |
| `EffectSoundness.PerformedIsDeclared` | packages-ts/galerina-core-compiler/src/effect-checker.ts:1248-1342 | What an accepted flow performs, it declares |
| `EffectSoundness.RequiredIsDeclared` | packages-ts/galerina-core-compiler/src/effect-checker.ts:1575-1620 | What a flow reached by calls declares, its callers declare |
| `EffectSoundness.CheckFlow` | packages-ts/galerina-core-compiler/src/effect-checker.ts:1225-1390 | The set of modelled error findings of a flow is exactly the one it deserves |
| `EffectSoundness.CheckPure` | packages-ts/galerina-core-compiler/src/effect-checker.ts:1248-1284 | A pure flow that declares, performs or calls into effects, and no other, is reported |
| `EffectSoundness.CheckDeclarations` | packages-ts/galerina-core-compiler/src/effect-checker.ts:1298-1372 | Undeclared and superfluous effects of the other flows |
| `EffectSoundness.CheckPropagation` | packages-ts/galerina-core-compiler/src/effect-checker.ts:1575-1620 | Effects required by called flows and nested helpers |
| `EffectSoundness.CheckEffects` | packages-ts/galerina-core-compiler/src/effect-checker.ts:1174-1198 | A program is accepted exactly when no flow has an error finding |
| `EffectVerdict.AcceptedIff` | packages-ts/galerina-core-compiler/src/effect-checker.ts:1174-1390 | With distinct names a program is accepted if and only if every flow that is not pure declares what it performs and what flows it reaches declare, and really produces or reaches declared audit evidence, and every pure flow declares nothing, performs nothing governed in its body and reaches no declared effect |
| `EffectVerdict.UndeclaredIff` | packages-ts/galerina-core-compiler/src/effect-checker.ts:1307-1342 | Which undeclared effects are reported, and under which of the three codes |
| `EffectVerdict.RequiredIff` | packages-ts/galerina-core-compiler/src/effect-checker.ts:1248-1284 | Which effects are required of callers, and what a pure flow is reported for |
| `EffectVerdict.OverdeclaredIff` | packages-ts/galerina-core-compiler/src/effect-checker.ts:1344-1371 | A declared effect is reported as produced by nothing if and only if neither the flow, nor a helper, nor a flow it reaches produces it and call shapes could show it: an error for audit evidence, a warning otherwise |
| `Effects.CollectTransitive` | packages-ts/galerina-core-compiler/src/effect-checker.ts:1783-1813 | The depth-first walk with its shared visited set: everything it newly visits is fully explored, and every effect it returns is justified by a call path |
| `Effects.RequiredEffects` | packages-ts/galerina-core-compiler/src/effect-checker.ts:1783-1813 | Its answer is exactly the effects declared by flows reached in one or more calls, cycles included |
| `Effects.HasTransitiveEffect` | packages-ts/galerina-core-compiler/src/effect-checker.ts:1815-1833 | The search finds an effect exactly when some called flow declares it |
| `Effects.SearchEffect` | packages-ts/galerina-core-compiler/src/effect-checker.ts:1815-1833 | A failed search has excluded everything it visited |
| `EditDistance.LeastEdits` | packages-ts/galerina-core-compiler/src/effect-checker.ts:1476-1495 | The table value is the least number of single-character insertions, deletions and substitutions, for all strings |
| `EditDistance.EffectEditDistance` | packages-ts/galerina-core-compiler/src/effect-checker.ts:1476-1495 | The one row overwritten in place holds the two-row recurrence |
| `EditDistance.EnoughEdits` | packages-ts/galerina-core-compiler/src/effect-checker.ts:1476-1495 | Some edit script has that length |
| `EditDistance.NoFewerEdits` | packages-ts/galerina-core-compiler/src/effect-checker.ts:1476-1495 | No shorter script exists |
| `Closure.Close` | packages-ts/galerina-core-compiler/src/effect-checker.ts:1084-1118 | The in-place closure settles within one pass more than there are flows on a cyclic graph, in one callees-first pass on an acyclic one, with exactly the effects of all reachable flows, complete if and only if all of them are |
| `Closure.Sweep` | packages-ts/galerina-core-compiler/src/effect-checker.ts:1086-1111 | One pass is monotone, never claims an effect no reachable flow has, and closes the graph when callees come first |
| `Closure.ClosedIsExact` | packages-ts/galerina-core-compiler/src/effect-checker.ts:1084-1118 | A settled result is the least fixed point |
| `ClosureOrder.CloseProgram` | packages-ts/galerina-core-compiler/src/effect-checker.ts:1059-1118 | Cycle detection, topological order and closure together: the summaries are exact for every call graph, with nothing assumed about the order |
| `CallOrder.CycleDetector.DetectCycle` | packages-ts/galerina-devtools-graph-algorithms/src/algorithms/dfs.ts:42-88 | A cycle is reported exactly when the graph has one |
| `CallOrder.CycleDetector.Dfs` | packages-ts/galerina-devtools-graph-algorithms/src/algorithms/dfs.ts:51-76 | The three-colour search keeps a finishing order in which every callee comes first |
| `CallOrder.TopoSort` | packages-ts/galerina-devtools-graph-algorithms/src/algorithms/topo.ts:10-54 | Each caller is listed before its callees, and exactly the nodes that some cycle reaches are missing (the leftover list is those, not only the nodes on a cycle) |
| `CallOrder.Release` | packages-ts/galerina-devtools-graph-algorithms/src/algorithms/topo.ts:32-43 | Releasing the callees of one node keeps in-degrees equal to the callers not yet listed and the queue equal to the free nodes |
| `CallOrder.WalkIsDistinct` | packages-ts/galerina-devtools-graph-algorithms/src/algorithms/topo.ts:10-54 | A walk that ends in the order lies in the order and never repeats |
| `ClosureOrder.OrderNames` | packages-ts/galerina-core-compiler/src/effect-checker.ts:1075-1082 | Callees first, then the flows the sort could not place: every flow once |
| `ClosureOrder.ReverseIsCalleesFirst` | packages-ts/galerina-core-compiler/src/effect-checker.ts:1073-1076 | The reverse of a complete order lists callees first |
| `CacheProof.HitIsLatest` | packages-ts/galerina-core-compiler/src/bounded-cache.ts:132-165 | Refinement of a plain map, over all runs: a lookup hits if and only if the cache is enabled and the key resident, and returns its last admitted value since its last delete, clear or refused offer; a miss changes one counter |
| `CacheProof.RunKeepsBooks` | packages-ts/galerina-core-compiler/src/bounded-cache.ts:146-240 | After every run: both bounds hold, residents and tombstones are disjoint, tombstones stay within their ceiling in eviction order, evictions are accounted for, and the recorded weight is the residents' sum plus the drift |
| `CacheProof.BooksExactIff` | packages-ts/galerina-core-compiler/src/bounded-cache.ts:149-155 | Recorded weight is never below the residents' sum, and equals it if and only if no resident of positive weight was refused as oversize since the last clear |
| `CacheProof.RunIsByRecency` | packages-ts/galerina-core-compiler/src/bounded-cache.ts:132-185 | Residents are ordered by last set or hit |
| `CacheProof.SetEvictsShortest` | packages-ts/galerina-core-compiler/src/bounded-cache.ts:146-185 | An admitted set evicts the shortest oldest prefix that restores the bounds, and keeps its own key if and only if the value fits beside the drift and one entry is allowed |
| `CacheProof.EvictsShortestPrefix` | packages-ts/galerina-core-compiler/src/bounded-cache.ts:175-185 | The eviction loop removes the shortest prefix that restores both bounds |
| `BoundedCache.Cache.GetValue` | packages-ts/galerina-core-compiler/src/bounded-cache.ts:132-140 | A hit moves its entry to the newest end |
| `BoundedCache.Cache.SetValue` | packages-ts/galerina-core-compiler/src/bounded-cache.ts:146-165 | Admission, replacement and the refusal branch that forgets the entry but keeps its weight |
| `BoundedCache.Cache.EvictWhileOverfull` | packages-ts/galerina-core-compiler/src/bounded-cache.ts:175-185 | Evicts oldest entries while either bound is exceeded |
| `BoundedCache.Cache.Tombstone` | packages-ts/galerina-core-compiler/src/bounded-cache.ts:198-209 | A tombstone is appended, older ones dropped past the ceiling |
| `BoundedCache.Cache.DeleteKey` | packages-ts/galerina-core-compiler/src/bounded-cache.ts:232-238 | Delete removes entry and tombstone and gives the weight back |
| `BoundedCache.Cache.ClearAll` | packages-ts/galerina-core-compiler/src/bounded-cache.ts:240-240 | Clear empties both maps and the weight, not the counters |
| `BoundedCache.Cache.KnewKey` | packages-ts/galerina-core-compiler/src/bounded-cache.ts:217-219 | True if and only if some resident entry or some tombstone has the key; `CacheMemory.KnownIff` says what that means over a run |
| `CacheMemory.KnownIff` | packages-ts/galerina-core-compiler/src/bounded-cache.ts:211-219 | Over every run a key is known if and only if some admitted set of it was followed by no delete of it, no clear, no oversize refusal while it was resident, and no eviction that pushed its tombstone past the ceiling; a ceiling below 1 pushes it at once |
| `CacheMemory.NewestRemembered` | packages-ts/galerina-core-compiler/src/bounded-cache.ts:187-209 | Eviction leaves exactly the tombstones of the latest evictions still remembered, as many as the ceiling allows |
| `BoundedCache.Build` | packages-ts/galerina-core-compiler/src/bounded-cache.ts:107-130 | A cache is built with the options the settings ask for, and refused if and only if they ask for no valid options |
| `BoundedCache.AdmittedIff` | packages-ts/galerina-core-compiler/src/bounded-cache.ts:146-155 | An offer is admitted if and only if the cache is enabled and the weight is finite and between 0 and the limit for one item, both ends included |
| `BoundedCache.DeletedIff` | packages-ts/galerina-core-compiler/src/bounded-cache.ts:232-238 | Delete answers whether the key was resident and gives back the weight recorded for it |
| `CacheProof.CountersCount` | packages-ts/galerina-core-compiler/src/bounded-cache.ts:132-155 | Over every run each lookup is counted once, as a hit or a miss, and each offer turned away once |
| `CircuitProof.DrawingKeepsMeaning` | packages-ts/galerina-core-compiler/src/gate-from-pattern.ts:230-326 | For every accepted pattern text, class table and input, the circuit sends the input to OUT if and only if the whole input matches the tree the parser built; `PatternText.ParsedIff` says which tree that is |
| `PatternText.CircuitDecidesText` | packages-ts/galerina-core-compiler/src/gate-from-pattern.ts:76-326 | For every text drawn, class table and input, the circuit decides the input, and accepts it if and only if the text matches it, where a text is read off its characters: escapes n, t and r are the codes 10, 9 and 13, escaped punctuation is itself, d, w, s and the point are classes, groups, exact counts and anchors are as written |
| `PatternText.ParsedIff` | packages-ts/galerina-core-compiler/src/gate-from-pattern.ts:95-198 | The parser accepts a text if and only if that reading gives it a meaning, and builds exactly that meaning |
| `PatternText.DrawnIff` | packages-ts/galerina-core-compiler/src/gate-from-pattern.ts:261-326 | A drawing exists if and only if the name is an identifier of at most 64 characters and the text is printable and means a pattern of 1 to 4094 positions |
| `CircuitProof.CountsAsPredicted` | packages-ts/galerina-core-compiler/src/gate-from-pattern.ts:202-208 | The drawing has exactly the part count predicted before expansion plus one, twice that plus three wires, and one reason of its own per position |
| `CircuitProof.OneProducerEach` | packages-ts/galerina-core-compiler/src/gate-from-pattern.ts:230-256 | No consumer has two producers and no output feeds two consumers |
| `CircuitProof.RunIsExpected` | packages-ts/galerina-core-compiler/src/gate-from-pattern.ts:230-256 | Every drawing decides every input, refusing at the first position that fails |
| `CircuitProof.FlattenKeepsMeaning` | packages-ts/galerina-core-compiler/src/gate-from-pattern.ts:230-256 | Expanding exact repetition to a chain of character positions keeps the matched language |
| `CircuitProof.GenerateCircuit` | packages-ts/galerina-core-compiler/src/gate-from-pattern.ts:261-326 | The generator's checks, their order and its drawing |
| `Circuit.Emitter.Emit` | packages-ts/galerina-core-compiler/src/gate-from-pattern.ts:230-256 | Emission appends exactly the chain of the pattern's positions, fed by the entry, in as many calls as `EmitSteps` counts |
| `Circuit.Emitter.EmitCopies` | packages-ts/galerina-core-compiler/src/gate-from-pattern.ts:250-254 | A repetition emits that many copies, each fed by the one before |
| `Circuit.Longer` | packages-ts/galerina-core-compiler/src/gate-from-pattern.ts:230-256 | Two chains emitted one after the other are one longer chain |
| `PatternRoundTrip.ParseInvertsShow` | packages-ts/galerina-core-compiler/src/gate-from-pattern.ts:95-198 | Every canonical pattern within the nesting bound is read back from its text unchanged |
| `PatternRoundTrip.AcceptedTextsNormalise` | packages-ts/galerina-core-compiler/src/gate-from-pattern.ts:95-198 | Every accepted text parses to a canonical pattern whose own text parses to the same pattern |
| `Pattern.PatternParser.TakeAlternation` | packages-ts/galerina-core-compiler/src/gate-from-pattern.ts:95-104 | The mutable parser state follows the parse specification, refusals included |
| `Pattern.PatternParser.TakeSequence` | packages-ts/galerina-core-compiler/src/gate-from-pattern.ts:106-118 | Items up to the end, a bar or a closing parenthesis |
| `Pattern.PatternParser.TakeAtom` | packages-ts/galerina-core-compiler/src/gate-from-pattern.ts:120-163 | The cursor steps over one atom: groups with their depth, anchors at the ends, escapes, literals and the refused syntax |
| `Pattern.PatternParser.TakeQuantifier` | packages-ts/galerina-core-compiler/src/gate-from-pattern.ts:165-198 | The cursor scan succeeds if and only if no quantifier follows, and then takes nothing, or a positive decimal count in braces follows, alone or twice the same around a comma and without a lazy or possessive suffix, and then passes it and repeats the atom that often; other texts are refused with their reason |
| `Pattern.QuantifierIff` | packages-ts/galerina-core-compiler/src/gate-from-pattern.ts:165-198 | For all texts the grammar function accepts a quantifier exactly when it is absent or an exact positive count without suffix, and that text decides the count and the place after it |
| `DrawingCost.WorkBoundedIff` | packages-ts/galerina-core-compiler/src/gate-from-pattern.ts:32-37 | For every pattern the parser can build, whatever counts of the same total its repetitions have, the emission calls are at most its size times its part count if and only if nothing that draws no part is repeated |
| `DrawingCost.DrawnIsLinear` | packages-ts/galerina-core-compiler/src/gate-from-pattern.ts:279-287 | Drawing an accepted text without such a repetition takes at most its length plus one, times its part count, emission calls |
| `DrawingCost.EmptyGroupWork` | packages-ts/galerina-core-compiler/src/gate-from-pattern.ts:200-208 | For every n an empty group repeated n times before one letter passes all ceilings, draws two parts and takes n + 3 emission calls |
| `ArtifactRoundTrip.DecodeAcceptsExactly` | packages-ts/galerina-core-compiler/src/checked-flow-artifact.ts:479-507 | Decoding a byte string to an artifact succeeds if and only if the artifact is valid and encoding it gives exactly those bytes |
| `ArtifactRoundTrip.DecodeAfterEncode` | packages-ts/galerina-core-compiler/src/checked-flow-artifact.ts:479-507 | Whatever value was encoded, decoding its bytes gives its canonical copy |
| `ArtifactRoundTrip.DecodeIsInjective` | packages-ts/galerina-core-compiler/src/checked-flow-artifact.ts:486-507 | Two byte strings that decode to the same artifact are equal |
| `ArtifactWitness.ValidIff` | packages-ts/galerina-core-compiler/src/checked-flow-artifact.ts:297-345 | An artifact is one that validation returns if and only if its four digests, its version and its tree are good; the contract fixes all else, and its tree always fits the ceilings |
| `ArtifactWitness.SampleRoundTrips` | packages-ts/galerina-core-compiler/src/checked-flow-artifact.ts:479-507 | A concrete artifact is valid, fits the byte bound, is encoded and is decoded to itself |
| `ArtifactRoundTrip.BytesArePresentable` | packages-ts/galerina-core-compiler/src/checked-flow-artifact.ts:479-484 | Encoded artifacts pass every check made before scanning: no byte-order mark, no CR, one final LF, valid UTF-8 |
| `ArtifactRoundTrip.PrintIsPlain` | packages-ts/galerina-core-compiler/src/checked-flow-artifact.ts:347-354 | Canonical text has paired surrogates and no control characters whatever its strings hold |
| `JsonRoundTrip.PrintedIsReadIffBounded` | packages-ts/galerina-core-compiler/src/checked-flow-artifact.ts:347-477 | The scanner inverts the printer on exactly the values within the depth, count, array, field and string bounds |
| `JsonGrammar.ParsedIff` | packages-ts/galerina-core-compiler/src/checked-flow-artifact.ts:360-477 | The scanner accepts a text and returns a value if and only if the text means that value by the grammar of RFC 8259, without white space and with integers only, and the value is within the bounds |
| `JsonGrammar.SpellsIff` | packages-ts/galerina-core-compiler/src/checked-flow-artifact.ts:396-426 | The decoder of strings gives exactly what the grammar says, character by character: letter escapes by their codes and four hexadecimal digits of either case |
| `JsonGrammar.PrintedMeans` | packages-ts/galerina-core-compiler/src/checked-flow-artifact.ts:347-354 | What the printer writes for a value within the bounds means that value by the same grammar |
| `JsonRoundTrip.AcceptedIsBounded` | packages-ts/galerina-core-compiler/src/checked-flow-artifact.ts:360-477 | Whatever the scanner accepts is within those bounds |
| `JsonRoundTrip.CanonicalTextIsStable` | packages-ts/galerina-core-compiler/src/checked-flow-artifact.ts:347-477 | Printing what was scanned gives a text that scans to the same value |
| `JsonRoundTrip.ScannedStringsDecode` | packages-ts/galerina-core-compiler/src/checked-flow-artifact.ts:396-426 | A string the scanner accepts always decodes, so its decoder's own refusal cannot happen |
| `JsonRoundTrip.UnescapeInvertsQuote` | packages-ts/galerina-core-compiler/src/checked-flow-artifact.ts:347-354 | Decoding inverts quoting, lone surrogates included |
| `JsonRoundTrip.StringRead` | packages-ts/galerina-core-compiler/src/checked-flow-artifact.ts:396-426 | A quoted string within the bounds is scanned back whole |
| `JsonRoundTrip.NumberRead` | packages-ts/galerina-core-compiler/src/checked-flow-artifact.ts:428-435 | A safe integer is scanned back from its decimal text |
| `JsonRoundTrip.ValueRead` | packages-ts/galerina-core-compiler/src/checked-flow-artifact.ts:378-388 | A printed value is scanned back at any position, spending exactly one unit per value |
| `JsonRoundTrip.ItemsRead` | packages-ts/galerina-core-compiler/src/checked-flow-artifact.ts:437-452 | Array items are read back in order after the ones already read |
| `JsonRoundTrip.FieldsRead` | packages-ts/galerina-core-compiler/src/checked-flow-artifact.ts:454-476 | Record fields with distinct keys are read back in order |
| `JsonRoundTrip.ValueBounded` | packages-ts/galerina-core-compiler/src/checked-flow-artifact.ts:372-388 | The budget spent is the number of values read, and depth and count stay within their ceilings |
| `Json.JsonScanner.Parse` | packages-ts/galerina-core-compiler/src/checked-flow-artifact.ts:360-370 | The scanner object accepts exactly the specified texts, with the specified refusals |
| `Json.JsonScanner.ParseValue` | packages-ts/galerina-core-compiler/src/checked-flow-artifact.ts:378-388 | Depth and value budget first, then dispatch on the first character |
| `Json.JsonScanner.ParseToken` | packages-ts/galerina-core-compiler/src/checked-flow-artifact.ts:383-387 | Each literal is tried only after its first letter; the rest are numbers |
| `Json.JsonScanner.ParseString` | packages-ts/galerina-core-compiler/src/checked-flow-artifact.ts:396-426 | The scan to the closing quote, escapes checked, then decoding and the string checks |
| `Json.JsonScanner.ParseNumber` | packages-ts/galerina-core-compiler/src/checked-flow-artifact.ts:428-435 | The longest integer literal, refused when unsafe |
| `Json.JsonScanner.ParseArray` | packages-ts/galerina-core-compiler/src/checked-flow-artifact.ts:437-452 | The loop over items, its ceiling and separators |
| `Json.JsonScanner.ParseObject` | packages-ts/galerina-core-compiler/src/checked-flow-artifact.ts:454-476 | The loop over fields, its ceiling, duplicate keys, colons and separators |
| `Json.JsonScanner.Spend` | packages-ts/galerina-core-compiler/src/checked-flow-artifact.ts:372-376 | Depth is refused before the budget is touched |
| `ArtifactCodec.ValidateIsIdempotent` | packages-ts/galerina-core-compiler/src/checked-flow-artifact.ts:297-345 | Validation returns a canonical copy: validating that copy changes nothing |
| `ArtifactCodec.CanonicalIsBounded` | packages-ts/galerina-core-compiler/src/checked-flow-artifact.ts:206-258 | The one admitted tree shape keeps every artifact within the scanner's bounds |
| `ArtifactCodec.DecodeCheckedFlowArtifact` | packages-ts/galerina-core-compiler/src/checked-flow-artifact.ts:486-507 | Byte checks, strict UTF-8, scanning, validation and the comparison with the re-encoding, in order |
| `ArtifactTree.SnapshotOfNode` | packages-ts/galerina-core-compiler/src/checked-flow-artifact.ts:166-204 | A snapshot of a canonical tree is the tree, spending one unit per node |
| `ArtifactTree.SnapshotIsGood` | packages-ts/galerina-core-compiler/src/checked-flow-artifact.ts:166-204 | Whatever a snapshot returns is well-formed and within the depth and node ceilings |
| `ArtifactTree.NamesDiffer` | packages-ts/galerina-core-compiler/src/checked-flow-artifact.ts:260-283 | The artifact's field names are distinct |
| `Artifact.AstReader.Snapshot` | packages-ts/galerina-core-compiler/src/checked-flow-artifact.ts:166-204 | The reader that spends its budget in place returns the specified copy, or refuses |
| `Utf8.DecodeInvertsEncode` | packages-ts/galerina-core-compiler/src/checked-flow-artifact.ts:11-12 | The strict decoder inverts the encoder on text with paired surrogates |
| `Utf8.EncodeInvertsDecode` | packages-ts/galerina-core-compiler/src/checked-flow-artifact.ts:11-12 | Whatever the strict decoder accepts is the encoding of what it returns |
| `Utf8.Rfc3629Examples` | packages-ts/galerina-core-compiler/src/checked-flow-artifact.ts:11-12 | The examples of RFC 3629 for one to four bytes, and the replacement character for a lone surrogate |
| `Cbor.ReadInvertsEncode` | packages-ts/galerina-core-compiler/src/checked-snapshot-gir-emitter.ts:52-67 | A strict decoder is a left inverse of the encoder, whatever bytes follow |
| `Cbor.EncodeInvertsRead` | packages-ts/galerina-core-compiler/src/checked-snapshot-gir-emitter.ts:52-67 | Whatever the strict decoder reads is the encoding of what it returns: one encoding per item |
| `Cbor.EncodingsArePrefixFree` | packages-ts/galerina-core-compiler/src/checked-snapshot-gir-emitter.ts:60-67 | No encoding is a prefix of another item's, so encodings are injective |
| `Cbor.HeadIsShortest` | packages-ts/galerina-core-compiler/src/checked-snapshot-gir-emitter.ts:52-58 | No form of the same argument is shorter |
| `Cbor.HeadWritten` | packages-ts/galerina-core-compiler/src/checked-snapshot-gir-emitter.ts:52-58 | An argument is never accepted in a longer form than it needs |
| `Cbor.IntegersInRange` | packages-ts/galerina-core-compiler/src/checked-snapshot-gir-emitter.ts:52-61 | Integers are encoded exactly in the signed 32-bit range |
| `Cbor.AppendixA` | packages-ts/galerina-core-compiler/src/checked-snapshot-gir-emitter.ts:52-61 | Integers of all head forms and both signs are encoded as in appendix A of RFC 8949 |
| `Cbor.AppendixAStructures` | packages-ts/galerina-core-compiler/src/checked-snapshot-gir-emitter.ts:62-67 | So are a string, an array and a map |
| `Cbor.HeadsAscend` | packages-ts/galerina-core-compiler/src/checked-snapshot-gir-emitter.ts:52-58 | Encoded arguments of one major type of ascending numbers are in strictly ascending bytewise order, across all head forms |
| `Cbor.AscendingKeysDiffer` | packages-ts/galerina-core-compiler/src/checked-snapshot-gir-emitter.ts:67-67 | A map whose keys ascend repeats none |
| `GirRoot.RootIsDeterministic` | packages-ts/galerina-core-compiler/src/checked-snapshot-gir-emitter.ts:97-122 | Every map of the emitted document has its keys in strictly ascending bytewise order of their encodings, and its text survives decoding |
| `GirRoot.DocumentDeterminesFunction` | packages-ts/galerina-core-compiler/src/checked-snapshot-gir-emitter.ts:97-122 | The bytes of the emitted document determine the function in it |
| `Cbor.Concat` | packages-ts/galerina-core-compiler/src/checked-snapshot-gir-emitter.ts:41-50 | The buffer filled part by part holds the parts in order |
| `GirProof.EmittedIsWellNumbered` | packages-ts/galerina-core-compiler/src/checked-snapshot-gir-emitter.ts:156-217 | In every emitted function the result ids are dense across blocks and every terminator operand was emitted earlier |
| `GirProof.SiblingAnswerIff` | packages-ts/galerina-core-compiler/src/checked-snapshot-gir-emitter.ts:198-216 | Results are shared across the two branches: the second returns a result of the first's block if and only if its answer is bound in the first branch and not in its own |
| `GirProof.SiblingAnswerIsEmitted` | packages-ts/galerina-core-compiler/src/checked-snapshot-gir-emitter.ts:198-216 | Such a trace passes the snapshot checks on declarations, types, constants, trace and entry, and is emitted: its last block answers with a result its run never computes |
| `GirMeaning.BranchAnswers` | packages-ts/galerina-core-compiler/src/checked-snapshot-gir-emitter.ts:156-217 | Run from its document item with any arguments, a branching function answers what its trace says, the first branch when the condition is not 0 and the second when it is; the one exception is a second branch that returns what only the first bound, which has no answer |
| `GirMeaning.StraightAnswers` | packages-ts/galerina-core-compiler/src/checked-snapshot-gir-emitter.ts:184-189 | A straight function answers what its trace says, parameters by their rank among the identifiers and constants by their numbers |
| `GirAccepts.BranchEmittedIff` | packages-ts/galerina-core-compiler/src/checked-snapshot-gir-emitter.ts:190-217 | A checked trace with a branch is emitted if and only if its two targets follow the branch in order, both branches end in returns, every fact is a parameter, a numeric constant or a terminator, and condition and answers are bound before |
| `GirAccepts.StraightEmittedIff` | packages-ts/galerina-core-compiler/src/checked-snapshot-gir-emitter.ts:184-189 | A checked trace without one is emitted if and only if it ends in a return of something it binds and its facts are parameters, numeric constants and terminators |
| `GirProof.TypesAreDeclared` | packages-ts/galerina-core-compiler/src/checked-snapshot-gir-emitter.ts:85-95 | The function has its entry's type and a constant instruction its constant's type and number, by the document's identifiers for types |
| `GirProof.ParameterTypesAgree` | packages-ts/galerina-core-compiler/src/checked-snapshot-gir-emitter.ts:130-145 | A parameter instruction names a position of the parameter list that has the instruction's own type |
| `GirProof.ParametersAreOrdered` | packages-ts/galerina-core-compiler/src/checked-snapshot-gir-emitter.ts:159-161 | Parameters are in strictly increasing order of identifier, none missing |
| `GirProof.BytesDetermineFunction` | packages-ts/galerina-core-compiler/src/checked-snapshot-gir-emitter.ts:69-83 | The bytes of a function determine it |
| `Gir.GirEmitter.EmitInstructions` | packages-ts/galerina-core-compiler/src/checked-snapshot-gir-emitter.ts:169-182 | One result per fact, terminators skipped, results bound as they are emitted |
| `Gir.GirEmitter.EmitReturningBlock` | packages-ts/galerina-core-compiler/src/checked-snapshot-gir-emitter.ts:147-154 | A block's instructions and the return that closes it |
| `Gir.GirEmitter.EmitBranchBlocks` | packages-ts/galerina-core-compiler/src/checked-snapshot-gir-emitter.ts:190-217 | Entry, then and else blocks, with the refusals between them |
| `Gir.GirEmitter.EmitWholeFunction` | packages-ts/galerina-core-compiler/src/checked-snapshot-gir-emitter.ts:156-217 | The emitter object produces the specified function or refusal |
| `Gir.GirEmitter.EmitAllBlocks` | packages-ts/galerina-core-compiler/src/checked-snapshot-gir-emitter.ts:162-189 | The straight-line and the branching form |
| `Containment.AcceptedIffEveryWalkRedecided` | packages-ts/galerina-core-compiler/src/gate-v3-authority.ts:138-185 | From the parts and the registry: nothing is reported if and only if every walk to the output, from an edge that leaves the last decision part of its name on an arm other than the first, passes a later decision |
| `Containment.VerifyDenyArmContainment` | packages-ts/galerina-core-compiler/src/gate-v3-authority.ts:138-185 | One diagnostic, in order, for exactly the edges that leave the last decision part of their name on an arm other than the first and from whose head some walk reaches the output with no decision before its last node |
| `Containment.Walk` | packages-ts/galerina-core-compiler/src/gate-v3-authority.ts:165-173 | The breadth-first walk with decision barriers sees exactly what an open walk reaches |
| `Containment.Expand` | packages-ts/galerina-core-compiler/src/gate-v3-authority.ts:167-172 | Expanding one node keeps the walk's invariant and makes progress |
| `Containment.CollectDecisions` | packages-ts/galerina-core-compiler/src/gate-v3-authority.ts:144-152 | Decision parts and their non-allow arms, the last of a repeated instance |
| `Containment.ArmsIff` | packages-ts/galerina-core-compiler/src/gate-v3-authority.ts:144-152 | A node has arms exactly when some part of its name decides, and then those after the first of the last such part |
| `Containment.BuildSuccessors` | packages-ts/galerina-core-compiler/src/gate-v3-authority.ts:154-156 | Adjacency lists of the edges that leave declared nodes |
| `FlowDependencies.AnalyzeFlowDependencies` | packages-ts/galerina-core-compiler/src/flow-dependency-analysis.ts:35-78 | USES and USEDBY are converse relations and IMPACT is the number of other flows with a call path to this one, on any graph, cycles and self-calls included |
| `FlowDependencies.ImpactOf` | packages-ts/galerina-core-compiler/src/flow-dependency-analysis.ts:61-70 | The stack walk collects exactly the flows that reach this one |
| `FlowDependencies.BuildEdges` | packages-ts/galerina-core-compiler/src/flow-dependency-analysis.ts:44-56 | Both edge maps hold exactly the flow-to-flow calls |
| `FlowDependencies.ZeroImpactIffUncalled` | packages-ts/galerina-core-compiler/src/flow-dependency-analysis.ts:25-26 | IMPACT is 0 if and only if no flow calls this one |
| `FlowDependencies.NothingMissedIff` | packages-ts/galerina-core-compiler/src/flow-dependency-analysis.ts:103-105 | No flow's dependants are under-counted against the union over repeated declarations if and only if every call of every declaration is a direct or indirect dependency of the index |
| `FlowDependencies.ImpactCompleteIff` | packages-ts/galerina-core-compiler/src/flow-dependency-analysis.ts:61-75 | For each flow, IMPACT is smaller than the union's if and only if some declaration calls the flow or a counted dependant and its own flow is neither counted nor the flow itself |
| `FlowDependencies.FalseSafeToDeleteIff` | packages-ts/galerina-core-compiler/src/flow-dependency-analysis.ts:24-26 | IMPACT answers 0 for a flow that some declaration reaches if and only if some declaration calls it and no kept declaration does |
| `FlowDependencies.UnionIffNothingShadowed` | packages-ts/galerina-core-compiler/src/flow-dependency-analysis.ts:37-41 | Direct USES only: all are the unions if and only if no replaced declaration calls a flow its replacement does not |
| `FlowDependencies.ShadowedCallerIsLost` | packages-ts/galerina-core-compiler/src/flow-dependency-analysis.ts:103-105 | An instance of the false answer: two declarations of one name, and a flow that only the first calls has IMPACT 0 |
| `FlowDependencies.IndexFlows` | packages-ts/galerina-core-compiler/src/flow-dependency-analysis.ts:37-42 | Of two declarations with one name the later stays |
| `FlowDependencies.GovernedNameIff` | packages-ts/galerina-core-compiler/src/flow-name.ts:56-67 | A governed flow is declared under the text after its floor, colons included |
| `FlowDependencies.CallNamesIff` | packages-ts/galerina-core-compiler/src/flow-dependency-analysis.ts:49-50 | The call names of a flow are those of the call nodes at any path under it |
| `GeneratedComments.RewriteIsIdempotent` | packages-ts/galerina-core-compiler/src/flow-dependency-analysis.ts:148-166 | When every generated line carries the mark, a second rewrite with the same blocks changes nothing |
| `GeneratedComments.RewriteIsExact` | packages-ts/galerina-core-compiler/src/flow-dependency-analysis.ts:148-166 | All other lines stay in order, and exactly the given block stands directly above each named flow |
| `GeneratedComments.StableIffMarked` | packages-ts/galerina-core-compiler/src/flow-dependency-analysis.ts:160-161 | For every source, a second rewrite changes nothing if and only if every block written has all its lines marked |
| `GeneratedComments.RewriteGeneratedComments` | packages-ts/galerina-core-compiler/src/flow-dependency-analysis.ts:148-166 | The bottom-up loop that splices the line array in place computes the specified rewrite |
| `GeneratedComments.OtherLinesStay` | packages-ts/galerina-core-compiler/src/flow-dependency-analysis.ts:157-163 | Rewriting changes generated lines only |
| `GeneratedComments.RewrittenIsCurrent` | packages-ts/galerina-core-compiler/src/flow-dependency-analysis.ts:157-163 | After rewriting every named flow has exactly its block |
| `GeneratedComments.FlowNameIff` | packages-ts/galerina-core-compiler/src/flow-dependency-analysis.ts:153-155 | A line declares a flow of a name if and only if it reads so: white space, at most one qualifier, the keyword, white space and the whole word |
| `GeneratedComments.BlockIsIndented` | packages-ts/galerina-core-compiler/src/flow-dependency-analysis.ts:155-163 | The block written for such a line is the flow's own, each line behind the white space the flow line starts with |
| `GeneratedComments.GeneratedIff` | packages-ts/galerina-core-compiler/src/flow-dependency-analysis.ts:161-161 | A line is generated if and only if the mark is the first thing on it after white space |
| `FixEdits.FixIsSimultaneous` | packages-ts/galerina-core-compiler/src/fix-edit.ts:42-85 | Every line of the result has its kept edits made all at once in the original line, unless a text was inserted where a span starts that is replaced afterwards; lines without edits stay |
| `FixEdits.FixSimultaneousIff` | packages-ts/galerina-core-compiler/src/fix-edit.ts:34-41 | Any ordered, disjoint edits of one line are all kept and give the simultaneous result on every source they fit if and only if none replaces a span where another has inserted a text |
| `FixEdits.InsertionSurvivesIff` | packages-ts/galerina-core-compiler/src/fix-edit.ts:34-36 | An insertion and a span at its column are both kept on every source they fit, and give the simultaneous result on all of them if and only if nothing was inserted |
| `FixEdits.ApplyFixEdits` | packages-ts/galerina-core-compiler/src/fix-edit.ts:42-85 | The edited text, and applied + skipped = number of edits |
| `FixEdits.KeptAreDisjoint` | packages-ts/galerina-core-compiler/src/fix-edit.ts:55-68 | Kept edits are in descending order and pairwise non-overlapping |
| `FixEdits.DroppedForAReason` | packages-ts/galerina-core-compiler/src/fix-edit.ts:58-68 | An edit is dropped only for a span outside its line or for overlapping a kept edit |
| `FixEdits.SortedIsOrdered` | packages-ts/galerina-core-compiler/src/fix-edit.ts:57-57 | The order of application is descending, none lost |
| `FixEdits.SortedIsStable` | packages-ts/galerina-core-compiler/src/fix-edit.ts:57-57 | Edits of one position are applied in the order they were given in |
| `FixEdits.OverlapsIff` | packages-ts/galerina-core-compiler/src/fix-edit.ts:33-36 | Spans overlap if and only if they share a column, or one is empty and strictly inside the other |
| `FixEdits.InRangeIff` | packages-ts/galerina-core-compiler/src/fix-edit.ts:59-65 | An edit is in range if and only if its line exists and splits around its span |
| `FixEdits.LinesAreWhole` | packages-ts/galerina-core-compiler/src/fix-edit.ts:45-52 | A line ends at every line feed, with the carriage return before it if there is one, and nowhere else |
| `FixEdits.RejoinInvertsSplit` | packages-ts/galerina-core-compiler/src/fix-edit.ts:46-52 | Lines and their exact terminators give the source back |
| `FixEdits.InTurnIsSimultaneous` | packages-ts/galerina-core-compiler/src/fix-edit.ts:70-76 | Applying from the right never shifts an edit still to come: the line after any number of turns is the original with those edits made at once, column by column |
| `FixEdits.ComputeAutoFix` | packages-ts/galerina-core-compiler/src/fix-edit.ts:103-119 | A fix is accepted if and only if some edit was applied and rechecking the fixed text succeeds with no more errors; the answer is the fixed text then and the source otherwise |

## Left out

- Correctness.CompilerCorrect: requires the static stack need, distinct names and no surplus argument that is not 0 once truncated; it also assumes fewer than 2^31 code cells and slots, the size at which the 32-bit code array would truncate addresses.
- CompileCache.BytecodeCache.TryRunBytecode: the tree-walking interpreter that a refusal falls back to is not part of this model; the reference meaning is the structural evaluator.
- EscapeProof.LocalRecordsStayLocal: requires plain binding names, and takes the type checker's word that fields declared `Int` or `Bool` hold numbers; conditions are not evaluated, so the result also holds on paths a program never takes.
- EffectSoundness.CheckFlow: the codes for unknown effect names, tiers, standard-library calls, and all locations, messages and suggested fixes are not modelled, nor the order and number of the findings.
- EffectSoundness.AcceptedRunsAreDeclared: observed and helper effects are given per flow; the matching of call names to effects by patterns and receiver types is not modelled.
- Closure.Close: the effect and completeness maps of the source are one map of pairs; callees are known flows, as the call resolution before it guarantees.
- CallOrder.CycleDetector.DetectCycle: the cycle path it also returns is not modelled; the effect checker uses only whether there is one.
- CallOrder.TopoSort: the callees of a flow do not repeat, as they come from a set.
- CacheProof.RunKeepsBooks: weights are real numbers; floating-point rounding is not modelled, and a weigher that fails counts as no weight.
- CircuitProof.DrawingKeepsMeaning: the text of the gate, its file-size ceiling and the contents of the class tables are not modelled; the result holds for any class table.
- CircuitProof.GenerateCircuit: the text of the gate and its file-size ceiling are not modelled.
- Pattern.PatternParser.TakeQuantifier: counts are natural numbers of any size; the rounding of counts beyond 2^53, and counts beyond double range, which become infinite, are not modelled.
- DrawingCost.DrawnIsLinear: counts calls of the emitter; the cost of building and joining strings is not modelled.
- Json.JsonScanner.ParseObject: a record keeps its fields in the order read; JavaScript's reordering of array-index keys is not modelled, and no admitted field is one.
- Json.JsonScanner.ParseNumber: negative zero is the number 0, which the comparison of bytes then refuses.
- ArtifactRoundTrip.DecodeAcceptsExactly: the normalisation test is a parameter assumed only to accept ASCII text; the digests are opaque.
- ArtifactCodec.DecodeCheckedFlowArtifact: the distinct refusal codes of validation are one code.
- ArtifactCodec.ValidateIsIdempotent: the refusal codes of validation are one code; accessors, prototypes and symbols of JavaScript objects are not modelled.
- Gir.GirEmitter.EmitAllBlocks: the references by digest are not modelled; of the snapshot's own validation only the checks on what the emitter reads are (`GirProof.Checked`).
- GirMeaning.BranchAnswers: a condition other than 0 is taken to select the first target; types of arguments are not checked.
- Gir.GirEmitter.EmitInstructions: a constant outside 32 bits is refused when the function is encoded (`Cbor.IntegersInRange`), not while it is emitted.
- Cbor.ReadInvertsEncode: text with lone surrogates is written as the replacement character and is outside the round trip; the decoder does not check the order of map keys, which the emitter fixes (`GirRoot.RootIsDeterministic`).
- Containment.VerifyDenyArmContainment: diagnostic texts and locations; a component is its registry key.
- FlowDependencies.AnalyzeFlowDependencies: lists of names are sets, without their sorted order; merging files is concatenation of their declarations.
- GeneratedComments.RewriteIsIdempotent: requires that every generated line starts with the mark and is one line.
- GeneratedComments.StableIffMarked: requires one-line block lines none of which is itself the declaration of a flow with a block.
- FixEdits.FixIsSimultaneous: lines and columns are integers.
- Ast: `Trim` strips ASCII white space only, and a node without a value has the empty string; whether a flow declares 64-bit types is a parameter of the compiler.
- Command line, file system, watch mode, AI packages, authentication, attestation and the other checkers of the package: plumbing, tables or flat checks.

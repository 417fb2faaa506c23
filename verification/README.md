# Isla, modelled and proved in Dafny

Isla runs Sail instruction-set specifications symbolically and checks litmus tests against axiomatic
memory models. This project models four of its cores and the smaller parts they rest on, and proves
what each is for.

**Symbolic execution.** `Words`, `SymLang`, `SymExec`, `SymLaws`, `SymProofs`, `SymSteps`, `SymTheorems`,
`SymSplits` and `SymRunner` model the interpreter loop of `executor.rs`: frames with a call stack,
lazily initialised variables, primitive operations, forks on symbolic jumps and on `Monomorphize`. The
solver is an exact satisfiability oracle over the trace of definitions and assertions. The theorem is
that the queue of paths partitions the valuations: each valuation that meets the initial constraints is
on exactly one queued, running or collected path, and that path stands for a configuration of the
concrete run. `SymLaws` says of every instruction, for the symbolic and for the concrete step, what becomes
of each part of the frame. `SymRunner` is the loop itself, with its queue, updated in place, and its limit on time.
`RegVector` is the access to a vector of registers at a symbolic index.

**Scheduling.** `Fractions`, `Scheduler`, `SchedulerProofs`, `SchedulerTheorems` and
`SchedulerTermination` model `start_multi` as a state machine whose steps are the atomic actions of the
workers and the main thread: pops, steals, batches from the global queue, contention, messages, pokes and
the kill. Every theorem is about every
reachable state under every interleaving. The credit of an id is conserved, so the test on it is
exact; no task is lost, for a reason that is not the credit; and every run can still come to its end
exactly when no id was given twice.

**Cat models.** `Sexps`, `CatExps`, `CatCompiler`, `Closures`, `CatNames`, `CatModels`, `CatChecks`,
`CatTypes` and `EventRels` model the type inference for cat, the compiler from relation algebra to first-order
formulas with fresh bound events, the simplifier, the closure axioms and the encoding of relations
between events. The emitted commands hold in exactly the interpretations that the cat model describes,
they define no name twice, and by choice of the helper names they can be satisfied exactly when each check
is met by the relation that its expression denotes.

**Page tables.** `Addresses`, `Descriptors`, `PageTables`, `PageWalk` and `VaPages` model Armv8 tables
with a 4K granule (section D8.3 of the Arm Architecture Reference Manual, DDI 0487): tables allocated on
demand, frozen, and read back byte by byte by an independent walk. The tables refine a map from pages
to the last descriptor written.

**Candidates and dependencies.** `Candidates` is the odometer over thread paths; `Extraction`,
`CallTrees`, `Executions`, `Translates`, `TableReads`, `ExecutionInfos` and `TraceFacts` are the extraction of axiomatic
events and the merging and removal of translation events; `Footprints`, `Survivors` and `Dependencies` are the
dependency analysis, shown to be exactly the chains of definitions and uses whose overwritten registers
survive; `Exhaustive` is the loop that enumerates the reads-from relations.

**Words and relocations.** `BitText` is printing and parsing of bit-vectors; `Relocations` is symbolic
relocation (section 5.7 of ELF for the Arm 64-bit Architecture, AAELF64).

Objects that the program updates in place are classes here, its loops are methods with invariants, and
each method is tied to a function of its inputs or of the old state, or states outright what it
promises. Where the code and its own words differ, the model follows the code:

- `S1PageAttrs::bits` puts UXN at bit 53 and PXN at bit 54, the other way round from the field table
  (`Descriptors.S1FieldsRead`, `Descriptors.ExecuteNeverExact`).
- The walk tests the level 2 descriptor at level 3, so an invalid page reports its page offset and not
  address 0 (`PageWalk.InvalidAddress`).
- `UpdateWalk` adds the index to a table's address without scaling it by eight, so at every level it is the
  address of the entry exactly for index zero (`PageWalk.ReportedAddressExact`).
- An overwritten register stays touched if the instruction that overwrites it uses any touched register
  (`Survivors.TouchedExact`).
- The axioms for a check that asks for a cycle are met by the full relation, cycle or not, so such a check
  rules nothing out (`CatChecks.CheckExact`).
- The kill can be broadcast before any work has been reported (`SchedulerTheorems.EarlyKill`,
  `SchedulerTheorems.DecisionExact`).
- The axioms for a reflexive closure make it reflexive only on related events
  (`Closures.ReflexiveEverywhere`).
- The fresh counter for event names wraps at 2^32, and a fresh name then captures an argument: meaning is
  preserved exactly while no fresh name is an argument (`CatCompiler.CaptureExactly`), which from the
  start is for up to 2^32 - 2 bound events (`CatCompiler.CaptureFromStart`).
- An id given to two tasks recovers two units, which the main thread never takes for one: from some
  reachable state on no worker can leave any more (`SchedulerTermination.EndsExactly`).
- `total()` says none for an empty list of threads, where the iterator gives one empty candidate
  (`Candidates.Candidates.Total`).
- The comment of `ctrl_dep` asks the later instruction to be a load or a store; the code asks it of the
  earlier one (`Dependencies.CtrlDep`).
- A capability text with a 33rd character panics at once in a build with overflow checks, and without them
  only if that character is a digit (`BitText.BitVectorFromStr`).
- With one register, a symbolic index of any length panics in the range of the bits to extract
  (`RegVector.FixIndexLength`).
- An immediate that reaches bit 0, as that of the branch instructions does, is patched by a build
  without overflow checks and panics in one with them (`Relocations.ImmediateSymbolic`).

## Model

| member | source | states |
|---|---|---|
| Fractions.Fraction.Halve | isla-lib/src/fraction.rs:50-52 | halving leaves half of the value, so two halves make the whole |
| Fractions.Fraction.DividePow | isla-lib/src/fraction.rs:54-57 | refining the denominator does not change the value |
| Fractions.Fraction.MinSplit | isla-lib/src/fraction.rs:69-76 | what is kept and what is handed out add up to the old value |
| Fractions.SplitValue | isla-lib/src/fraction.rs:59-76 | the kept part is 2^-n of a unit numerator, both parts stay positive, and they add up |
| Fractions.Fraction.IsOne | isla-lib/src/fraction.rs:78-80 | true exactly when the value is one, whatever the denominator |
| Fractions.Fraction.AddAssign | isla-lib/src/fraction.rs:83-94 | adds values exactly, for denominators in either order |
| SchedulerTheorems.StepInv | isla-lib/src/executor.rs:1587-1681 | every atomic step of every thread keeps credit, positivity, drained queues and the order of kills |
| SchedulerTheorems.CreditConserved | isla-lib/src/executor.rs:1603-1665 | recovered, unread, running and queued credit of an id add up to one unit per initial task, in every reachable state, and every live fraction is positive |
| SchedulerTheorems.DetectionExact | isla-lib/src/executor.rs:1646-1665 | the recovered fraction of an id is one exactly when none of its work is queued, running or unread |
| SchedulerTheorems.ForeignIds | isla-lib/src/executor.rs:1648-1651 | ids that were not given never appear in the table or as work |
| SchedulerTheorems.DecisionExact | isla-lib/src/executor.rs:1659-1671 | the main thread's test, which skips ids it has not heard of, is right exactly when it has heard of all |
| SchedulerTheorems.EarlyKill | isla-lib/src/executor.rs:1659-1671 | a reachable state in which the kill is under way and the only task has not started |
| SchedulerTheorems.EachTaskOnce | isla-lib/src/executor.rs:1533-1575 | at every moment a created task is queued, running or collected, in exactly one place |
| SchedulerTheorems.NoTaskLost | isla-lib/src/executor.rs:1626-1644 | when all workers have left, each initial or forked task was run and collected exactly once, early kill or not |
| SchedulerTheorems.CompleteExactly | isla-lib/src/executor.rs:1612-1681 | leaving workers mean finished work exactly when there was a worker or nothing to do |
| SchedulerTheorems.DeadlockFree | isla-lib/src/executor.rs:1626-1679 | while a worker has not left, some thread can step: no wake-up is lost |
| SchedulerTheorems.QueueEnds | isla-lib/src/executor.rs:1533-1543 | a fork goes to the back of its worker's queue, the worker takes from the back, thieves take from the front, and nothing else in a queue moves |
| SchedulerTheorems.MessagesInOrder | isla-lib/src/executor.rs:1637-1657 | messages and responses are read in the order in which they were sent, one at a time |
| SchedulerTheorems.PokedExactly | isla-lib/src/executor.rs:1660-1665 | a poke goes to exactly the workers recorded as idle |
| SchedulerTheorems.IdleExactly | isla-lib/src/executor.rs:1650-1656 | a worker is recorded as idle from its report of it until its next finished task is read |
| SchedulerTheorems.IdleAfterEmptyScan | isla-lib/src/executor.rs:1533-1543 | in every run a worker reports that it is idle only after a scan in which it found every queue empty, with no contention on any |
| SchedulerTermination.Quiesce | isla-lib/src/executor.rs:1626-1644 | from every reachable state the workers, left alone, can come to rest with nothing queued, running or unread in an inbox |
| SchedulerTermination.NextDecision | isla-lib/src/executor.rs:1659-1671 | with each id given once, the decision taken when nothing is outstanding is the kill |
| SchedulerTermination.EndsExactly | isla-lib/src/executor.rs:1626-1681 | from every reachable state some continuation lets all workers leave, exactly when no id was given twice or there is no worker |
| SymLang.ParamsBound | isla-lib/src/executor.rs:1288-1290 | a callee's parameters hold its arguments, the last one for a repeated name, and nothing else changes |
| SymLaws.LogicExact | isla-lib/src/primop.rs:362-394 | negation, conjunction and disjunction are defined on booleans and have their truth tables |
| SymLaws.ComparisonExact | isla-lib/src/executor.rs:388-393 | equality is for two booleans or two bit-vectors of one length, and the unsigned order of the solver for the latter |
| SymLaws.ArithmeticExact | isla-lib/src/executor.rs:396-401 | complement, sum and difference keep the length and are the one word that is right modulo two to the length |
| SymLaws.UnknownExact | isla-lib/src/executor.rs:78-100 | an unknown of a type can be every value of that type and no other |
| SymLaws.SymReads | isla-lib/src/executor.rs:102-138 | a symbolic read finds the variable, otherwise the register, otherwise the let-binding, and fills it with one new unknown if it has no value, changing nothing else |
| SymLaws.ConcReads | isla-lib/src/executor.rs:102-138 | the same of a concrete read, which takes the next number of the valuation |
| SymLaws.SymEvalsInOrder | isla-lib/src/executor.rs:382-386 | arguments are evaluated symbolically from left to right, and the first error is the error |
| SymLaws.ConcEvalsInOrder | isla-lib/src/executor.rs:382-386 | the same of concrete evaluation |
| SymLaws.ConcExpressions | isla-lib/src/executor.rs:358-414 | a literal is its value, an undefined value a new unknown of its type, an operation that of its evaluated arguments or a type error |
| SymLaws.SymCalls | isla-lib/src/executor.rs:1166-1295 | a symbolic call starts the callee at its first instruction with its parameters, the result unassigned unless a parameter, the caller's registers and let-bindings, and the caller on the stacks; a missing function comes before a failing argument and that before too many arguments |
| SymLaws.ConcCalls | isla-lib/src/executor.rs:1166-1295 | the same of a concrete call |
| SymLaws.SymAssigns | isla-lib/src/executor.rs:507-530 | a symbolic copy or primitive operation puts its value in the variable, otherwise the let-binding, otherwise the register, changes nothing else and goes to the next instruction |
| SymLaws.ConcAssigns | isla-lib/src/executor.rs:507-530 | the same of a concrete assignment |
| SymLaws.SymReturns | isla-lib/src/executor.rs:1275-1332 | the end of a function gives its result, or a new unknown of its type, to the caller one instruction after the call, with the caller's variables and the callee's registers; without a caller the path is finished |
| SymLaws.ConcReturns | isla-lib/src/executor.rs:1275-1332 | the same of a concrete return |
| SymLaws.SymMoves | isla-lib/src/executor.rs:1053-1127 | declarations, initialisations, jumps on known values and exits, field by field |
| SymLaws.ConcMoves | isla-lib/src/executor.rs:1053-1127 | the same of the concrete steps, with every jump |
| SymLaws.SymBranches | isla-lib/src/executor.rs:1065-1113 | a branch on a symbol takes the target if it can, queues the other side exactly if that is possible too, is dead if neither is, and is refused for a symbol that is no boolean |
| SymLaws.SymKnown | isla-lib/src/executor.rs:1334-1344 | a split on a known value reads it and goes on |
| SymLaws.SymSplitsOn | isla-lib/src/executor.rs:1334-1450 | a split takes symbols of the type it names, or of any bit-vector type; it copies the symbol, fixes the chosen value and queues the other values from before the copy |
| SymLaws.ConcSplitsOn | isla-lib/src/executor.rs:1334-1344 | a split does nothing but read in a concrete run |
| SymLaws.FallsOff | isla-lib/src/executor.rs:1037-1040 | a path past the last instruction ends with the unit value |
| SymProofs.ReadSim | isla-lib/src/executor.rs:78-138 | reading a name, which may create an unknown, stands for the concrete read |
| SymProofs.EvalSim | isla-lib/src/executor.rs:358-505 | evaluating an expression symbolically stands for evaluating it concretely, with the same error or value, under every valuation |
| SymSteps.JumpSim | isla-lib/src/executor.rs:1065-1125 | of the two sides of a branch a valuation is on exactly the one its value selects; the path dies only if no valuation is on it |
| SymSteps.MonoSim | isla-lib/src/executor.rs:1334-1450 | of the fixed value and the queued rest a valuation is on exactly one, and neither changes what the frame stands for |
| SymSteps.LeaveConc | isla-lib/src/executor.rs:1275-1286 | returning through the stack of closures commutes with giving symbols their values |
| SymSteps.EnterConc | isla-lib/src/executor.rs:1266-1292 | entering a function, as `SymLaws.SymCalls` describes it, commutes with giving symbols their values |
| SymSteps.StepSim | isla-lib/src/executor.rs:1036-1487 | one round of the interpreter, for every instruction and valuation: exactly one continuation is satisfied, it stands for the concrete step, and a path that stops has the concrete outcome, or stops at a split on a value of a type that the split does not take |
| SymTheorems.SymbolicExact | isla-lib/src/executor.rs:1500-1531 | at every point of every run, each valuation is on exactly one queued, running or collected path, which tracks its concrete run unless the time ran out; other valuations are on none |
| SymTheorems.CollectedExact | isla-lib/src/executor.rs:1512-1530 | when all is collected, the outcome collected for a valuation is the one outcome of its concrete run, unless the time ran out or the run passes a split on a value of a type that the split does not take; no dead path has a valuation |
| SymSplits.RequeueBounded | isla-lib/src/executor.rs:1334-1450 | a task that one split queues again gets a new feasible value every time, at most 2^k for k bits |
| SymSplits.RequeueExhausts | isla-lib/src/executor.rs:1387-1389 | when the queued task finds its path dead, the values split on are exactly the feasible ones |
| SymRunner.Worker.JumpOn | isla-lib/src/executor.rs:1068-1113 | the statements of the symbolic branch take exactly the modelled step, fork included |
| SymRunner.Worker.Split | isla-lib/src/executor.rs:1334-1450 | the statements of the split take exactly the modelled step, with the checkpoint before the copied symbol |
| SymRunner.Worker.Step | isla-lib/src/executor.rs:1053-1487 | one round of the loop takes exactly the modelled step, of which `SymLaws` gives every field |
| SymRunner.Worker.Round | isla-lib/src/executor.rs:1036-1053 | a round with the limit on time moves the pool by one step and uses up time for every instruction; it stops for time only when none is left |
| SymRunner.Worker.RunLoop | isla-lib/src/executor.rs:1022-1490 | running one path to its end leaves a pool that some run reaches, by as many instructions as time was used; it stops for time only when none is left |
| SymRunner.Worker.Drain | isla-lib/src/executor.rs:1500-1531 | emptying the queue ends, in a pool that some run reaches by as many instructions as time was used; with time left no path timed out; what is collected partitions the valuations, each with what its concrete run ends in |
| RegVector.RequiredBitsLeast | isla-lib/src/bitvector.rs:80-82 | the number of bits is the least b with n <= 2^b |
| RegVector.FixIndexLength | isla-lib/src/executor.rs:175-184 | the resized index has the value modulo 2^bits; it panics exactly when cut to no bits |
| RegVector.RegisterFile.Read | isla-lib/src/executor.rs:186-267 | the chain reads the register that the index selects; a symbolic index out of range reads the first, and every refused access has its error |
| RegVector.RegisterFile.ReadChain | isla-lib/src/executor.rs:244-257 | the chain has the value of the register at the index, for every value of the index |
| RegVector.RegisterFile.Write | isla-lib/src/executor.rs:269-356 | the write changes exactly the register at the index, a symbolic index out of range none, and every refused access has its error |
| RegVector.RegisterFile.WriteEach | isla-lib/src/executor.rs:329-345 | after the loop the selected register has the new value and every other one its own, even with repeated names |
| RegVector.ReadAgrees | isla-lib/src/executor.rs:175-184 | within range the compared index is the concrete index, without aliasing |
| Sexps.SimplifyPreserves | isla-cat/src/smt.rs:80-205 | simplifying keeps sort and value in every environment over a non-empty domain where the known names are empty |
| Sexps.SimplifyExact | isla-cat/src/smt.rs:115-196 | one pass reaches the normal form: no name known to be empty, no constant or doubled negation left under an operator that has a rule for it, no nested or trivial conjunction or disjunction; exactly the normal forms are left as they are |
| CatCompiler.CompileCorrect | isla-cat/src/smt.rs:320-380 | the compiled formula holds exactly when the arguments are in the denoted set or relation, nested bound events included, as long as no fresh name is an argument |
| CatCompiler.ToplevelCorrect | isla-cat/src/smt.rs:382-387 | a toplevel expression compiles, and means membership of events 1 and 2 |
| CatCompiler.CaptureExactly | isla-cat/src/smt.rs:48-52 | all expressions of a type with at most n bound events are compiled correctly, in every interpretation, exactly when none of the next n names of the wrapping counter is an argument |
| CatCompiler.CaptureFromStart | isla-cat/src/smt.rs:48-52 | from the first fresh name that is for n up to 2^32 - 2; with one more bound event the name 1 captures |
| CatTypes.Tcx.Push | isla-cat/src/cat.rs:358-366 | a pushed name has the new type and no other name changes |
| CatTypes.Tcx.Pop | isla-cat/src/cat.rs:368-375 | popping drops the innermost type of a name |
| CatTypes.Tcx.CheckExp | isla-cat/src/cat.rs:451-507 | an accepted expression is well typed at the wanted type and has the same shape; without `let` and parameters it is accepted exactly if the typing rules give it that type; only names bound by a `let` can change in the bindings |
| CatTypes.Tcx.InferExp | isla-cat/src/cat.rs:509-596 | an accepted expression is annotated consistently throughout; without `let` and parameters inference finds the one type of the typing rules, and fails exactly if there is none |
| CatTypes.CompilesExactly | isla-cat/src/smt.rs:320-380 | a well-typed expression never yields a type failure in the compiler: it compiles exactly if it has no `let` and no set function but `range`, and panics otherwise |
| CatTypes.AcceptedCompiles | isla-cat/src/smt.rs:382-387 | whatever inference makes of an expression without `let` and `domain` compiles, so the unwraps in `compile_cat` succeed |
| Closures.LeastClosure | isla-cat/src/smt.rs:410-426 | every model of the axioms contains the least transitive closure, which is itself a model |
| Closures.AcyclicExact | isla-cat/src/smt.rs:500-503 | the inclusion, transitivity and irreflexivity axioms have a model exactly when there is no cycle |
| Closures.LeastFieldClosure | isla-cat/src/smt.rs:428-450 | every model of the reflexive axioms contains the closure that is reflexive on its field, itself a model |
| Closures.ReflexiveEverywhere | isla-cat/src/smt.rs:428-450 | the axioms make a closure reflexive everywhere exactly when every event is related to something |
| CatNames.AnonymousApart | isla-cat/src/smt.rs:473-476 | checks without a name get different ones at different positions, and none that a cat file can give |
| CatNames.UniqueExactly | isla-cat/src/smt.rs:456-540 | the names defined for a model are all different exactly if the bindings and closures are given different names and the named checks are, for names without a colon, as those in cat files are (isla-cat/src/cat_lexer.rs:234) |
| CatModels.BindingMeans | isla-cat/src/smt.rs:458-470 | a definition is asserted as stated, and a body that simplifies to false makes its name empty |
| CatModels.Compilation.CompileDef | isla-cat/src/smt.rs:456-540 | each definition adds exactly its own condition to what the output says and its own names to those defined, and the known-empty names stay empty |
| CatModels.CompileCat | isla-cat/src/smt.rs:453-543 | compiling a well-typed model succeeds, from any counter whose names spare the arguments; its output holds in exactly the interpretations the model describes, and defines no name twice exactly if none is given twice |
| CatChecks.AcyclicCheckExact | isla-cat/src/smt.rs:472-503 | an acyclicity check can be met by choosing its two helper relations exactly when the checked relation has no cycle |
| CatChecks.CheckExact | isla-cat/src/smt.rs:472-503 | every kind of check can be met by choosing its helper relations and constants exactly when the relation it is about meets it, which for a cycle that is asked for is always |
| CatChecks.ModelChecksExact | isla-cat/src/smt.rs:453-543 | where the bindings and closures of a model hold, the helpers of all checks can be chosen so that the model holds exactly when each check is met by what its expression denotes: checks, named or not, do not constrain one another |
| EventRels.Pairs.Next | isla-axiomatic/src/smt_model.rs:53-67 | the iterator yields each pair of positions once, in order, and then nothing for ever |
| EventRels.SmtBasicRel | isla-axiomatic/src/smt_events.rs:398-414 | the simplified formula holds of two events' names exactly when the relation holds of the events |
| Addresses.VaValue | isla-axiomatic/src/page_table.rs:595-597 | a virtual address is the low 48 bits of a word |
| Addresses.FromIndicesValue | isla-axiomatic/src/page_table.rs:622-641 | the indices and the offset fill disjoint fields of the address |
| Addresses.TableValue | isla-axiomatic/src/page_table.rs:411-413 | a table's descriptor leads back to that table |
| Descriptors.S1Known | isla-axiomatic/src/page_table.rs:223-238 | fully known attributes make one word, field by field, with nothing unknown |
| Descriptors.S1UnknownExactly | isla-axiomatic/src/page_table.rs:223-238 | no unknown bit is left exactly when every attribute is known |
| Descriptors.PageDescValue | isla-axiomatic/src/page_table.rs:440-449 | a page descriptor is its attributes, its page number and its type, each in its place |
| Descriptors.PageDescAddress | isla-axiomatic/src/page_table.rs:1071-1073 | the address field of a page descriptor gives back the page |
| Descriptors.S1FieldsRead | isla-axiomatic/src/page_table.rs:67-80 | reading the fields at the documented positions gives the attributes back, UXN and PXN exchanged |
| Descriptors.ExecuteNeverExact | isla-axiomatic/src/page_table.rs:227-228 | the execute-never fields come back as given exactly when they agree |
| PageTables.PageTables.Alloc | isla-axiomatic/src/page_table.rs:714-718 | a new table is a new root and no entry changes |
| PageTables.PageTables.Below | isla-axiomatic/src/page_table.rs:497-513 | an upper descriptor is zero exactly when there is no table below, and otherwise leads to it |
| PageTables.PageTables.Update | isla-axiomatic/src/page_table.rs:744-816 | replaces the level 3 descriptor of the address, creating tables on the way, and changes no other entry of any tree; it reports the addresses of the tables at the first one, two and three indices, each of them and the root with its next index added, and the last of these as updated |
| PageTables.PageTables.Map | isla-axiomatic/src/page_table.rs:818-836 | the page's entry is the page descriptor, all others are as before, and the path to it is reported |
| PageTables.PageTables.IdentityMap | isla-axiomatic/src/page_table.rs:876-878 | the same for the page at its own address, the low 48 bits of it |
| PageTables.PageTables.Invalid | isla-axiomatic/src/page_table.rs:872-874 | the page's entry is zero, all others are as before, and the path to it is reported |
| PageTables.PageTables.Replay | isla-axiomatic/src/page_table.rs:818-878 | after any sequence of calls every entry is the last descriptor written for it, or what it was |
| PageWalk.ReadsEntry | isla-axiomatic/src/page_table.rs:1005-1016 | reading eight bytes at an entry's address gives the descriptor stored there |
| PageWalk.WalkReads | isla-axiomatic/src/page_table.rs:1058-1128 | for every root and address the walk succeeds, finds the entry the updates describe, and records the addresses of the entries it read |
| PageWalk.MappedAddress | isla-axiomatic/src/page_table.rs:1119-1127 | a page last mapped with known attributes translates to its page plus the offset |
| PageWalk.InvalidAddress | isla-axiomatic/src/page_table.rs:1122-1123 | an unmapped page has the page offset as its address if its level 3 table exists, and otherwise 0 |
| PageWalk.ReportedAddressExact | isla-axiomatic/src/page_table.rs:744-816 | after freezing, the tables an update reports are those in which the walk reads levels 1 to 3, and the address it reports for an entry is the one the walk reads exactly at index 0, level by level |
| PageWalk.BuildAndWalk | isla-axiomatic/src/page_table.rs:744-878 | build, freeze and walk: the level 3 descriptor is the last one written, and mapped pages have their address |
| VaPages.ReadsInsert | isla-axiomatic/src/axiomatic.rs:288-294 | an event that is no memory read of region "stage 1" changes nothing wherever it stands, and one that is adds its address at its place |
| VaPages.ReadsFound | isla-axiomatic/src/axiomatic.rs:287-296 | the addresses found are those of the reads of region "stage 1", in order, whatever other events come in between |
| VaPages.VaPage | isla-axiomatic/src/axiomatic.rs:276-307 | there is a page exactly when the stage 1 reads are four and all concrete, and it is that of their indices; a fifth concrete read after four is out of bounds |
| VaPages.VaPageInverts | isla-axiomatic/src/axiomatic.rs:276-307 | every translation that reads the four addresses a full walk records, with other events of any region in between, gives back the address with its low 12 bits cleared |
| Candidates.IncrementIndex | isla-axiomatic/src/axiomatic.rs:88-100 | adds one to the number the digits stand for, and says so when it wraps to zero |
| Candidates.EveryChoiceOnce | isla-axiomatic/src/axiomatic.rs:102-115 | counting up to the product meets every choice of paths, and none twice |
| Candidates.Candidates.constructor | isla-axiomatic/src/axiomatic.rs:70-77 | starts at number zero, exhausted at once if a thread has no path |
| Candidates.Candidates.Total | isla-axiomatic/src/axiomatic.rs:79-85 | the number of candidates, but none for no threads, where one is given |
| Candidates.Candidates.Next | isla-axiomatic/src/axiomatic.rs:102-115 | gives the candidates in the order of their numbers, and then none for ever |
| Footprints.SpreadExact | isla-axiomatic/src/footprint_analysis.rs:362-396 | the set that drops nothing is exactly what def-use chains reach when overwrites are ignored |
| Footprints.TouchedLower | isla-axiomatic/src/footprint_analysis.rs:242-283 | the kill rule drops no register that an unbroken chain reaches |
| Footprints.TouchedBracket | isla-axiomatic/src/footprint_analysis.rs:242-283 | the touched set lies between the unbroken chains and all chains |
| Survivors.TouchedExact | isla-axiomatic/src/footprint_analysis.rs:242-283 | the touched set is exactly what surviving chains reach: chains of definitions and uses in which an overwritten register is kept only by an instruction that uses a surviving register to define another |
| Dependencies.FlowOf | isla-axiomatic/src/footprint_analysis.rs:258-270 | the loops collect exactly the registers linked to a touched one |
| Dependencies.AdvanceDeps | isla-axiomatic/src/footprint_analysis.rs:398-424 | afterwards exactly those registers are touched that are linked to from a touched one, or were touched and are not written, or were touched and are written by an instruction with some touched source |
| Dependencies.TouchedBy | isla-axiomatic/src/footprint_analysis.rs:242-283 | the returned set is exactly what surviving chains from the first instruction reach; it has all that an unbroken chain reaches and only what some chain reaches |
| Dependencies.AddrDep | isla-axiomatic/src/footprint_analysis.rs:291-310 | true exactly if a surviving chain leads into an address |
| Dependencies.DataDep | isla-axiomatic/src/footprint_analysis.rs:317-344 | the same for written data and for what a system register write reads |
| Dependencies.CtrlDep | isla-axiomatic/src/footprint_analysis.rs:351-396 | true exactly when a chain, overwrites ignored, leads from a load or store into the address of a branch in between |
| Dependencies.PickedExact | isla-axiomatic/src/footprint_analysis.rs:434-454 | the registers touched after a pick are exactly what surviving chains from the picked registers reach, each counted from its pick on |
| Dependencies.PickDep | isla-axiomatic/src/footprint_analysis.rs:426-465 | true exactly if a surviving chain leads to a pick on the way, and a surviving chain from what is picked there into a read |
| Dependencies.RmwDep | isla-axiomatic/src/footprint_analysis.rs:213-238 | true exactly for a load-exclusive and a store-exclusive with no exclusive in between |
| Extraction.CutAndJoin | isla-axiomatic/src/axiomatic.rs:884 | cutting a trace at its cycle markers loses nothing but the markers |
| Executions.CallStack.Contains | isla-axiomatic/src/axiomatic.rs:612-619 | the number of the outermost call of the function |
| Executions.ReadCycle | isla-axiomatic/src/axiomatic.rs:889-984 | the kept events of a cycle in order, each as its position calls for and with the call of the translation function it belongs to; the error is given only for two instructions, the panic only for a return without its call |
| CallTrees.BalancedExactly | isla-axiomatic/src/axiomatic.rs:953-1025 | calls balance exactly if in every thread, initialisation aside, the calls and returns are the text of a forest of calls |
| ExecutionInfos.ExecutionInfo.From | isla-axiomatic/src/axiomatic.rs:826-1026 | succeeds exactly when no cycle has two instructions and calls balance in every thread; the execution then holds, once each, exactly the events the traces call for, aligned with the opcodes and at places of their own |
| ExecutionInfos.ExtractedSound | isla-axiomatic/src/axiomatic.rs:986-1020 | extracted events are aligned with the thread's opcodes, and no two share thread, instruction and position |
| TraceFacts.ExtractedOrdered | isla-axiomatic/src/axiomatic.rs:405-421 | instruction order and the order within an instruction order any two events of a thread in exactly one way, that of the trace, and no events of different threads |
| TraceFacts.OneThread | isla-axiomatic/src/axiomatic.rs:591-625 | events with one translation number come from one thread |
| TraceFacts.MergeableExactly | isla-axiomatic/src/axiomatic.rs:732-773 | the translations of an extracted execution can be merged exactly when none reaches from one cycle into another or into a cycle without an instruction |
| TableReads.FixedExactly | isla-axiomatic/src/axiomatic.rs:676-687 | a descriptor is seen as it was initially, and not zero, after every sequence of writes that can occur, exactly if it is not zero and nothing can write it |
| TableReads.RemovalExact | isla-axiomatic/src/axiomatic.rs:648-720 | in both modes exactly those events are moved away that see, or whose translation sees in all its reads, the initial non-zero descriptor whatever is written |
| ExecutionInfos.ExecutionInfo.RemoveUninterestingTranslates | isla-axiomatic/src/axiomatic.rs:648-726 | succeeds exactly on concrete table addresses; no event is lost, what is moved away could see nothing but its initial non-zero descriptor, what stays could, and alignment and places are kept |
| ExecutionInfos.ExecutionInfo.Gather | isla-axiomatic/src/axiomatic.rs:741-773 | groups the translation events by identifier without losing a base event |
| Translates.TaggedExactly | isla-axiomatic/src/axiomatic.rs:757-760 | what is gathered for a translation is the base events of its events, one event after the other, each with the position of its event |
| Translates.SortByIndex | isla-axiomatic/src/axiomatic.rs:775-777 | the base events in order of position, the same ones, and those of one position in the order they were in |
| ExecutionInfos.ExecutionInfo.MergeTranslations | isla-axiomatic/src/axiomatic.rs:732-824 | succeeds exactly when each translation is of one instruction; then the untranslated events are as they were, in order, followed by one event for each translation, with exactly its base events in order of position, those of one position in the order they were in, at the place and with the opcode of the first; alignment and unique places are kept |
| Exhaustive.InterpretRel | isla-axiomatic/src/smt_model.rs:223-237 | reads out exactly the pairs of the relation between the events |
| Exhaustive.RunSize | isla-axiomatic/src/run_litmus.rs:547-820 | the reports are different allowed relations, so there are no more than those |
| Exhaustive.CompleteExactly | isla-axiomatic/src/run_litmus.rs:547-820 | every allowed relation is found, whatever the solver answers, exactly when none contains another |
| Exhaustive.Exhaust | isla-axiomatic/src/run_litmus.rs:544-820 | the loop ends; it stops at a failing callback or when every allowed relation contains a reported one, and reports the lack of a model only if there is none at all |
| BitText.WriteBits64 | isla-lib/src/bitvector.rs:384-391 | prints the hexadecimal or binary text of the low bits |
| BitText.TextExact | isla-lib/src/bitvector.rs:58-74 | the printed text, character by character |
| BitText.FillDigits | isla-lib/src/bitvector.rs:98-109 | fills a vector from the top with the bits of digits, and stops at a bad one or without room, with and without overflow checks |
| BitText.BitVectorFromStr | isla-lib/src/bitvector.rs:97-142 | parses hexadecimal, binary and capability text, with the cases in which it refuses or panics, with and without overflow checks |
| BitText.PrefixExact | isla-lib/src/bitvector.rs:97-139 | the first two characters decide how the others are read, and other text is refused |
| BitText.HexExact | isla-lib/src/bitvector.rs:98-109 | hexadecimal text is digits only, and each digit gives its four bits, the first digit the highest |
| BitText.BinExact | isla-lib/src/bitvector.rs:111-121 | binary text is zeros and ones only, the highest bit first |
| BitText.CapExact | isla-lib/src/bitvector.rs:122-139 | capability text gives the tag bit and the digits from the top down over zeros, and is refused or panics exactly in the stated cases |
| BitText.DigitExact | isla-lib/src/bitvector.rs:104 | digits are read in lower and upper case |
| BitText.PrintParse | isla-lib/src/bitvector.rs:58-142 | parsing a printed word gives exactly its low bits, for every word and length |
| Relocations.SmtMeans | isla-elf/src/relocation_types.rs:81-99 | the solver's expression is the relocation's value modulo 2^64, page masks included |
| Relocations.SmtAgrees | isla-elf/src/relocation_types.rs:70-99 | the solver's expression agrees with evaluation wherever that gives a result, and always without overflow checks |
| Relocations.ImmediateSymbolic | isla-elf/src/relocation_types.rs:180-239 | succeeds exactly for patchable immediates; then the length is the opcode's, other bits are unchanged and the fields read back the slice, in either order |
| Relocations.EntrySymbolic | isla-elf/src/relocation_types.rs:267-293 | succeeds exactly for patchable immediates; then, for every symbol and place, the assertions hold exactly within the signed bounds, and the immediate holds the slice of the relocation |

## Left out

- Z3, checkpoints, model parsing and printing, logging, probes and the tracing of events: the solver is an exact oracle, and `Unknown` is not modelled.
- Sail values beyond booleans, bit-vectors, unit and poison, with nine primitive operations; structs, enumerations, vectors and memory; special primitives, stop conditions and function assumptions; `PrimopReset` and register relaxation.
- SymLaws.LogicExact: a boolean and a value of another type are a type error, also where the code, given a known boolean, does not look at the other operand.
- SymLaws.ComparisonExact: bit-vectors of different lengths are a type error, where the code finds known ones different.
- SymLaws.ArithmeticExact: bit-vectors of different lengths are a type error, where the code computes with known ones; Sail's type checker lets neither pass.
- SymSteps.StepSim: a split on a symbol of a sort that it does not take ends the path, where a concrete run goes on, since a split does nothing to a concrete value; `Monomorphize` at type `i128`, at lengths over 64 bits and on values missing from a model are not modelled.
- SymRunner.Worker.Drain: the limit on time counts rounds of the loop; in the single-threaded driver there is none, and then the loop need not end.
- The worker threads of `start_multi` and the interpreter are two models: the scheduler abstracts a task to its credit, and the interpreter's pool allows every order of steps.
- `start_multi_per_task` and the spawning of tasks, the order in which a batch leaves the global queue, and the width of the power of two in a fraction.
- RegVector.RegisterFile.Read: values are words; structures and constructors, which choose field by field, are not modelled.
- `Let` in cat, on which the compiler panics; `unshadow`, includes, `show`, flags and functions defined in cat; the printing of formulas as text.
- CatModels.CompileCat: requires that no name it draws is an argument, the condition that `CatCompiler.CaptureExactly` shows to be exact; compilations that share the counter while both run are not modelled.
- CatTypes.Tcx.InferExp: with `let` or parameters nothing is stated about when inference succeeds; a `let` whose body fails leaves its name bound.
- The encoders of conditions, sets and dependencies, which follow the one of basic relations; locations and initial values.
- Block mappings at levels 1 and 2, symbolic descriptors, `maybe_map` and its kin, stage 2 attributes, and tables written by `is_table`.
- `ipa_page`, the types and final writes recorded during extraction, and names of events.
- ExecutionInfos.ExecutionInfo.MergeTranslations: the mode that splits stages is not modelled, since it puts two events at one place; merged events come in the order of their translations, where a hash map has any.
- BitText.BitVectorFromStr: characters are single bytes.
- Relocations.ImmediateSymbolic: requires fields and slices whose bounds are the right way round.
- The assembler, linker, ELF and DWARF readers, configuration, litmus files, sandbox, drawing and the web client.

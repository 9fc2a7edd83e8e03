# Pipeline kernel of SelectorFramework, in Dafny

This project models the kernel of SelectorFramework (`core/Kernel.cc`): the
`Pipeline` that owns algorithms and tools, looks them up by runtime type,
keeps named output files and a cache of input files, and drives the phased
`process` loop in which reader algorithms decide when the run ends. It also
models the `SimpleAlg`/`PureAlg` adapter that binds an algorithm to one
reader.

Modules, following the structure of the source:

- `Errors` — `Option`, `Result` and the exceptions the kernel raises:
  not found, getTag not implemented, file already opened, and the
  out-of-range error of `inFilePaths.at(i)`.
- `Components` — a component is a value carrying its dynamic type, the types
  it derives from (standing in for `dynamic_cast`), its `isReader()` answer
  and its tag (`None` when `getTag` is not overridden). Also `Status`,
  `getTag`'s default and `vetoIf`.
- `Lookup` — the first-match scan of `getThing`, in predicate form and in tag
  form. A predicate may raise, and the scan then propagates the exception.
- `Pipelines` — the pipeline state, `makeAlg`/`makeTool` and the
  `getAlg`/`getTool` wrappers. A component is identified by its position in
  its vector, which stands for its owning pointer; `runningReaders` is a set
  of positions.
- `Files` — `makeOutFile`/`getOutFile` over a map from names to possibly-null
  files, and `inFileCount`/`inFile` over the lazily filled input cache.
  Creating or opening a file hands out a fresh identity.
- `Cycles` — one pass of the execution loop as a function of an oracle
  `exec(alg, cycle)` for what `execute()` returns, and `After`, the running
  readers left after n cycles.
- `Events` and `Execution` — `process` as the trace of calls it makes
  (load, bind back-reference, connect, execute, change of directory,
  finalize), with the loop bounded by fuel, since a reader may never report
  end of file.
- `Adapter` — `SimpleAlg::connect`/`execute` and the records it hands to its
  consume step.

Details of the code the model keeps:

- One cycle runs even when no reader is registered. The emptiness test comes
  after the cycle.
- `getOutFile` on an unbound name inserts a null entry and returns null.
  After that, `makeOutFile` on the same name without `reopen` raises
  "already opened" (`Files.GetUnboundBlocksMake`).
- `SimpleAlg::connect` calls `getAlg`, which raises "not found" at connect
  time when no reader of the type exists.
- `inFile(i)` past the inputs raises, because the code uses `at(i)`.

One detail of the code the model does not keep: at the end of `process` the
code changes directory into the default output file whenever the default
name is a key, and so dereferences null when that entry is the null one
`getOutFile` leaves (see "## Findings"). `Execution.Process` uses the
corrected change of directory instead.

## Model

| member | source | states |
|---|---|---|
| Components.GetTag | core/Kernel.cc:55-58 | the default getTag raises "not implemented"; an overriding component yields its tag |
| Components.VetoIf | core/Kernel.cc:60-63 | skips exactly when the condition holds, continues otherwise, never reports end of file |
| Lookup.FindFrom | core/Kernel.cc:157-169 | the scan returns the first component of the type that the predicate accepts, every earlier one of the type being rejected; with all rejected it raises "not found" for the type |
| Lookup.FindFromRaised | core/Kernel.cc:160-167 | when the scan fails with another error, the predicate raised it on the first component of the type it did not reject |
| Lookup.GetThing | core/Kernel.cc:157-169 | whole-vector scan: a first match that exists is returned; with every component of the type rejected, "not found"; otherwise the predicate's own exception, as above |
| Lookup.FirstMatchFound | core/Kernel.cc:160-165 | the scan returns the first component of the type the predicate accepts whenever one exists |
| Lookup.FindTagFrom | core/Kernel.cc:171-178 | the tag scan returns a component of the type carrying the tag, every earlier one of the type carrying another tag, and fails only with "not found" or "not implemented" |
| Lookup.FindTagFromMeaning | core/Kernel.cc:171-178 | the first component of the type whose tag is not a different value decides: it is returned when it carries the tag, and raises "not implemented" when it has no tag; with every component of the type carrying another tag, "not found" |
| Lookup.GetThingByTag | core/Kernel.cc:171-178 | equals the predicate lookup with getTag() == tag; the first component of the type carrying the tag, past only components carrying other tags, is returned; with every component of the type carrying another tag, "not found"; an untagged component of the type reached first raises "not implemented" |
| Lookup.TagLookupIsPredicateLookup | core/Kernel.cc:171-178 | the tag form equals the predicate form with the predicate getTag() == tag |
| Lookup.UntaggedRaisesNotImplemented | core/Kernel.cc:174-176 | reaching a component of the type without getTag raises "not implemented", not "not found" |
| Lookup.DistinctTagsSelectDistinct | core/Kernel.cc:171-178 | two components of a type with distinct tags are each found by their own tag |
| Pipelines.Empty | core/Kernel.cc:67 | a new pipeline has no components, no running readers, no output files, no input paths and no opened inputs, and satisfies the invariant |
| Pipelines.MakeAlg | core/Kernel.cc:140-149 | appends exactly one algorithm at the end and returns its position; it is running iff it is a reader; nothing else changes; the invariant is kept |
| Pipelines.MakeTool | core/Kernel.cc:151-155 | appends the tool at the end of the tools only; algorithms and running readers unchanged |
| Pipelines.GetAlg | core/Kernel.cc:180-184 | the first algorithm of the type the predicate accepts, whenever one exists; "not found" when all are rejected; otherwise the predicate's exception on the first one not rejected |
| Pipelines.GetAlgByTag | core/Kernel.cc:186-190 | the predicate lookup over the algorithms with getTag() == tag: the first algorithm of the type carrying the tag past only other tags is found; "not found" when all carry other tags; else "not implemented" |
| Pipelines.GetTool | core/Kernel.cc:192-196 | the first tool of the type the predicate accepts, whenever one exists; "not found" when all are rejected; otherwise the predicate's exception on the first one not rejected |
| Pipelines.GetToolByTag | core/Kernel.cc:198-202 | the predicate lookup over the tools with getTag() == tag: the first tool of the type carrying the tag past only other tags is found; "not found" when all carry other tags; else "not implemented" |
| Pipelines.MakeAlgKeepsEarlierMatch | core/Kernel.cc:158-169 | registering another algorithm does not change a lookup that already succeeds |
| Files.MakeOutFile | core/Kernel.cc:204-216 | a bound name without reopen raises "already opened" and changes nothing; otherwise the name is bound to a fresh file at the path, which is returned; other names keep their bindings |
| Files.GetOutFile | core/Kernel.cc:218-221 | a bound name yields its entry unchanged; an unbound one gets a null entry and null is returned; other names unchanged |
| Files.MakeThenGet | core/Kernel.cc:204-221 | the file made under a name is what getOutFile then returns, and the lookup changes nothing |
| Files.MakeTwice | core/Kernel.cc:204-216 | a second make without reopen raises; with reopen it binds a new, different file |
| Files.GetUnboundBlocksMake | core/Kernel.cc:204-221 | after getOutFile on an unbound name, makeOutFile on that name without reopen raises "already opened" |
| Files.InFile | core/Kernel.cc:228-234 | an index past the inputs raises; a first access opens the path with a fresh file and caches it; a cached path is returned with nothing changed |
| Files.InFileCached | core/Kernel.cc:228-234 | after one access, any index holding the same path yields the same file without opening again |
| Cycles.CycleFrom | core/Kernel.cc:250-259 | the rest of a cycle invokes algorithms in insertion order, only at positions from the current one on, and readers only leave the running set |
| Cycles.CycleFromMeaning | core/Kernel.cc:250-259 | from a position on, an algorithm is invoked iff it is a non-reader or a running reader and no earlier algorithm invoked in the cycle skipped; a running reader leaves iff it was invoked and reported end of file |
| Cycles.RunCycle | core/Kernel.cc:249-259 | a whole cycle invokes algorithms in insertion order and never adds a running reader |
| Cycles.CycleMeaning | core/Kernel.cc:249-259 | the invoked-iff and leaves-iff characterisation for a whole cycle |
| Cycles.RunningNeverGrows | core/Kernel.cc:249-263 | after more cycles the running readers are a subset of those after fewer |
| Cycles.CycleKeepsReaders | core/Kernel.cc:145-146 | a cycle leaves only registered readers running |
| Cycles.SkipStopsCycle | core/Kernel.cc:255-256 | after a skip no later algorithm is invoked that cycle, and the skipping reader stays running |
| Cycles.EndOfFileRemovesOnlyThatReader | core/Kernel.cc:257-258 | end of file removes that reader; every other running reader that did not itself report end of file stays; the cycle still reaches every later eligible algorithm unless one skips |
| Cycles.VetoDecidesCycle | core/Kernel.cc:60-63 | an algorithm returning vetoIf(cond) ends the cycle when cond holds; a later eligible algorithm with no skip in between is invoked iff cond does not hold; the algorithm's running status is unchanged |
| Cycles.ReadersWithDeadlines | core/Kernel.cc:249-263 | with no skips and readers ending on their deadline cycle, the readers running after n cycles are those whose deadline lies beyond n |
| Execution.Loop | core/Kernel.cc:249-263 | the loop stops right after the first cycle that leaves no reader running, and at least one cycle runs; without a stop within the bound, no count of cycles within it empties the running set |
| Execution.LoopTraceOrdered | core/Kernel.cc:249-259 | the loop's execute() calls come by cycle, and by insertion order within a cycle |
| Execution.LoopExecutes | core/Kernel.cc:249-259 | the loop's execute() calls are exactly the calls each of its cycles makes |
| Execution.Process | core/Kernel.cc:236-271 | records the inputs, so that inFileCount() is the number of paths given; ends with no reader running after the first cycle count that empties the running set, at least one; keeps the invariant |
| Execution.ProcessedInputs | core/Kernel.cc:223-238 | after process, inFileCount() is the number of paths given to it, inFile(i) opens the i-th of them, and the index one past the end raises |
| Execution.ProcessCalls | core/Kernel.cc:236-271 | every call other than execute() is a load, do_connect step, change of directory or finalize of the pipeline's own, each of those happens, once, phase after phase and in insertion order; the execute() calls are exactly those of each cycle |
| Execution.Setup | core/Kernel.cc:240-247 | before the loop: exactly a load per algorithm, then a do_connect per algorithm, then per tool, in order, and nothing else |
| Execution.Teardown | core/Kernel.cc:265-270 | after the loop: exactly the change of directory into the bound default output file, if any, then a finalize per algorithm, in order, and nothing else |
| Execution.TraceOrdered | core/Kernel.cc:240-270 | the phases follow one another: loads, algorithm connects, tool connects, cycles, change of directory, finalizes |
| Execution.LoopEndsIff | core/Kernel.cc:249-263 | the loop ends within a bound of cycles iff some number of cycles within it leaves no reader running |
| Execution.ProcessLastsUntilLastDeadline | core/Kernel.cc:249-263 | with no skips, the number of cycles is the latest reader deadline, and at least one |
| Execution.NoReadersOneCycle | core/Kernel.cc:261-262 | with no readers exactly one cycle runs |
| Execution.DefaultCdAsWritten | core/Kernel.cc:265-267 | the code calls cd() whenever the default name is a key, a null dereference when its entry is null |
| Execution.DefaultCdAsWrittenDereferencesNull | core/Kernel.cc:265-267 | getOutFile() of the default name before any default file is made leads the code to dereference null |
| Execution.DefaultCd | core/Kernel.cc:265-267 | changes directory exactly to the default output file when one exists |
| Execution.DefaultCdAgreesWhereDefined | core/Kernel.cc:265-267 | the intended change of directory agrees with the code wherever the code does not dereference null |
| Events.LoadPhase | core/Kernel.cc:240-241 | one load per algorithm, in insertion order |
| Events.ConnectPhase | core/Kernel.cc:243-247 | one do_connect per component, in insertion order, each setting the back-reference before calling connect |
| Events.FinalizePhase | core/Kernel.cc:269-270 | one finalize per algorithm, in insertion order |
| Adapter.SimpleConnect | core/Kernel.cc:293-297 | binds to the first algorithm of the reader type; with none it raises "not found" |
| Adapter.SimpleExecute | core/Kernel.cc:299-306 | consume is called iff the reader is ready, on its record, and its status returned; otherwise Continue |
| Adapter.ConsumedFrom | core/Kernel.cc:299-306 | from a cycle on, the m-th record consumed is the one of the m-th cycle on which the reader was ready |
| Adapter.ConsumedRecords | core/Kernel.cc:299-306 | over a run of cycles the records consumed are the ready ones, one per ready cycle, in cycle order; a record is consumed iff it was ready on some cycle; a never-ready reader feeds nothing |

## Left out

- ROOT I/O: constructing a `TFile` with "RECREATE", opening an input file,
  and the effect of `cd()`. These are modelled as fresh file identities and a
  trace event.
- Ownership and destruction: `unique_ptr` lifetimes, the declaration order
  of `outFileMap` before the component vectors, the empty destructor, the
  never-released input files, and the release of the old file on reopen.
  None of these is observable in the model.
- The bodies of `load`, `connect` and `finalize` belong to concrete
  components and are recorded only as calls. Their own effects on the
  pipeline are not modelled. Examples are opening files, looking up peers,
  and raising exceptions that abort `process`.
- Execution.Process: assumes the components' hooks, `execute()` included,
  neither raise nor change the pipeline. A lookup failure inside a connect
  hook, such as `Adapter.SimpleConnect` failing, aborts the real `process`;
  that is not composed here.
- Execution.Process: an `execute()` that raises propagates out of the real
  `process`, ending the loop; an `execute()` is an oracle that always returns
  a status here.
- Execution.Process: an `execute()` that calls `getOutFile` or `makeAlg`
  during the loop changes the pipeline the rest of the loop sees; here the
  algorithms and output files are fixed for the whole loop.
- Execution.Process: uses the corrected change of directory
  (`Execution.DefaultCd`). Where the code dereferences null (a null default
  entry), this model skips the change of directory and finishes normally;
  `Execution.DefaultCdAsWritten` models the code's behaviour.
- Adapter.ConsumedRecords: a standalone fold over the reader's views, one
  per cycle on which the adapter runs; it is not composed with the cycles
  of `Execution.Process`, which decide when the adapter runs.
- Execution.Process: runs at most fuel + 1 cycles and returns None beyond
  that. A reader that never reports end of file makes the real loop run
  forever; `Execution.LoopEndsIff` says when the bound suffices.
- `execute()`, `ready()` and the reader's record are oracles. `isReader()`
  is taken as a constant of each component.
- `getAlg(T tag)` converts the tag with `int(tag)`. Tags are modelled as
  `int`, so narrowing a wider integral type is not modelled.
- A lookup predicate is typed on the C++ class. Here it is a function on
  components that may raise. `getTool` by tag compiles only for tool types
  that declare `getTag`; here a tool's missing tag raises "not implemented",
  as for algorithms.
- `PureAlg::consume` (core/Kernel.cc:316-322) forwards to a fixed function.
  It is `Adapter.SimpleExecute` with that function as the consume step, so it
  has no member of its own.
- Error message text (`Form`, `typeid(...).name()`) is reduced to the kind
  of error and the type or name involved.

## Findings

| source | as written | input that shows it | evidently intended | confidence | as-written member | corrected member |
|---|---|---|---|---|---|---|
| core/Kernel.cc:265-267 | `cd()` is called on the default entry whenever the default name is a key of the output map, even when that entry is null | an algorithm calls `getOutFile()` during load or connect with no default file made; `getOutFile` leaves a null entry under the default name, and the end of `process` dereferences it (`Execution.DefaultCdAsWrittenDereferencesNull`) | change directory only to a default output file that exists | medium; not executed | Execution.DefaultCdAsWritten | Execution.DefaultCd |

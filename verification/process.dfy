/** Pipeline::process: the load phase, the connect phases, the cycle loop,
    the change to the default output file, and the finalize phase, as the
    trace of calls it makes. The bodies of load, connect and finalize are
    the components' own and are not modelled; execute() is an oracle.
    Because a reader may never report end of file, the loop is given fuel:
    it runs at most fuel + 1 cycles, and None means it would have gone on
    (`LoopEndsIff` says exactly when the bound suffices). */
module Execution {
  import opened Errors
  import opened Components
  import opened Pipelines
  import opened Files
  import opened Cycles
  import opened Events

  /** A finished cycle loop: the number one past the last cycle run (cycles
      are numbered from the loop's first cycle number), and the execute()
      calls made, in order. */
  datatype Run = Run(cycles: nat, trace: seq<Event>)

  /** The cycle loop from cycle number `cycle` on: run a cycle, and stop
      right after the first cycle that leaves no reader running. */
  function Loop(algs: seq<Component>, running: set<nat>, exec: Oracle, cycle: nat, fuel: nat): (r: Option<Run>)
    decreases fuel
    ensures r.Some? ==> cycle < r.value.cycles <= cycle + fuel + 1
    ensures r.Some? ==> After(algs, running, exec, cycle, r.value.cycles - cycle) == {}
    ensures r.Some? ==> forall n :: 1 <= n < r.value.cycles - cycle ==> After(algs, running, exec, cycle, n) != {}
    ensures r.None? ==> forall n :: 1 <= n <= fuel + 1 ==> After(algs, running, exec, cycle, n) != {}
  {
    var out := RunCycle(algs, running, exec, cycle);
    var events := ExecuteEvents(cycle, out.invoked);
    FirstCycle(algs, running, exec, cycle);
    if out.running == {} then
      Some(Run(cycle + 1, events))
    else if fuel == 0 then
      None
    else
      match Loop(algs, out.running, exec, cycle + 1, fuel - 1)
      case None =>
        NoneShift(algs, running, exec, cycle, fuel, out.running, cycle + 1);
        None
      case Some(rest) =>
        StopShift(algs, running, exec, cycle, rest.cycles, out.running, cycle + 1);
        Some(Run(rest.cycles, events + rest.trace))
  }

  /** The execute() calls the loop makes come in order: by cycle, and by
      position within a cycle. */
  lemma {:induction false} LoopTraceOrdered(algs: seq<Component>, running: set<nat>, exec: Oracle, cycle: nat, fuel: nat)
    requires Loop(algs, running, exec, cycle, fuel).Some?
    ensures Ordered(Loop(algs, running, exec, cycle, fuel).value.trace)
    ensures forall e :: e in Loop(algs, running, exec, cycle, fuel).value.trace ==> e.Execute? && e.cycle >= cycle
    decreases fuel
  {
    var out := RunCycle(algs, running, exec, cycle);
    ExecuteEventsOrdered(cycle, out.invoked);
    if out.running != {} {
      LoopTraceOrdered(algs, out.running, exec, cycle + 1, fuel - 1);
      OrderedConcat(ExecuteEvents(cycle, out.invoked), Loop(algs, out.running, exec, cycle + 1, fuel - 1).value.trace);
    }
  }

  /** The execute() calls the loop makes are exactly the calls each of its
      cycles makes. */
  lemma {:induction false} LoopExecutes(algs: seq<Component>, running: set<nat>, exec: Oracle, cycle: nat, fuel: nat)
    requires Loop(algs, running, exec, cycle, fuel).Some?
    ensures forall c: nat, i: nat ::
              Execute(c, i) in Loop(algs, running, exec, cycle, fuel).value.trace <==>
                cycle <= c < Loop(algs, running, exec, cycle, fuel).value.cycles
                && i in RunCycle(algs, After(algs, running, exec, cycle, c - cycle), exec, c).invoked
    decreases fuel
  {
    var out := RunCycle(algs, running, exec, cycle);
    ExecuteEventsOrdered(cycle, out.invoked);
    if out.running == {} {
      assert After(algs, running, exec, cycle, 0) == running;
    } else {
      LoopExecutes(algs, out.running, exec, cycle + 1, fuel - 1);
      LoopTraceShift(algs, running, exec, cycle, out, Loop(algs, out.running, exec, cycle + 1, fuel - 1).value);
    }
  }

  /** After one cycle the running readers are those the first cycle leaves. */
  lemma FirstCycle(algs: seq<Component>, running: set<nat>, exec: Oracle, cycle: nat)
    ensures After(algs, running, exec, cycle, 1) == RunCycle(algs, running, exec, cycle).running
  {
    assert After(algs, running, exec, cycle, 0) == running;
  }

  /** If later cycles never empty the running readers, neither do these
      cycles counted from one cycle earlier, given the first leaves some. */
  lemma NoneShift(algs: seq<Component>, running: set<nat>, exec: Oracle, cycle: nat, fuel: nat, next: set<nat>, nextCycle: nat)
    requires fuel >= 1 && nextCycle == cycle + 1
    requires next == RunCycle(algs, running, exec, cycle).running && next != {}
    requires forall n :: 1 <= n <= fuel ==> After(algs, next, exec, nextCycle, n) != {}
    ensures forall n :: 1 <= n <= fuel + 1 ==> After(algs, running, exec, cycle, n) != {}
  {
    AfterShiftAll(algs, running, exec, cycle);
  }

  /** The first emptying cycle count, seen from one cycle earlier. */
  lemma StopShift(algs: seq<Component>, running: set<nat>, exec: Oracle, cycle: nat, k: nat, next: set<nat>, nextCycle: nat)
    requires nextCycle == cycle + 1 && nextCycle < k
    requires next == RunCycle(algs, running, exec, cycle).running && next != {}
    requires After(algs, next, exec, nextCycle, k - nextCycle) == {}
    requires forall n :: 1 <= n < k - nextCycle ==> After(algs, next, exec, nextCycle, n) != {}
    ensures After(algs, running, exec, cycle, k - cycle) == {}
    ensures forall n :: 1 <= n < k - cycle ==> After(algs, running, exec, cycle, n) != {}
  {
    AfterShiftAll(algs, running, exec, cycle);
    FirstCycle(algs, running, exec, cycle);
  }

  /** The calls of one cycle are in order. */
  lemma ExecuteEventsOrdered(cycle: nat, invoked: seq<nat>)
    requires Increasing(invoked)
    ensures Ordered(ExecuteEvents(cycle, invoked))
    ensures forall e :: e in ExecuteEvents(cycle, invoked) <==> e.Execute? && e.cycle == cycle && e.alg in invoked
  {
  }

  /** The execute() calls of the first cycle followed by those of the later
      cycles are exactly the calls each cycle makes. */
  lemma LoopTraceShift(algs: seq<Component>, running: set<nat>, exec: Oracle, cycle: nat,
                       out: CycleOutcome, rest: Run)
    requires out == RunCycle(algs, running, exec, cycle)
    requires forall c: nat, i: nat ::
               Execute(c, i) in rest.trace <==>
                 cycle + 1 <= c < rest.cycles
                 && i in RunCycle(algs, After(algs, out.running, exec, cycle + 1, c - (cycle + 1)), exec, c).invoked
    requires cycle + 1 < rest.cycles
    ensures forall c: nat, i: nat ::
              Execute(c, i) in ExecuteEvents(cycle, out.invoked) + rest.trace <==>
                cycle <= c < rest.cycles
                && i in RunCycle(algs, After(algs, running, exec, cycle, c - cycle), exec, c).invoked
  {
    AfterShiftAll(algs, running, exec, cycle);
    ExecuteEventsOrdered(cycle, out.invoked);
    forall c: nat, i: nat
      ensures Execute(c, i) in ExecuteEvents(cycle, out.invoked) + rest.trace <==>
                cycle <= c < rest.cycles
                && i in RunCycle(algs, After(algs, running, exec, cycle, c - cycle), exec, c).invoked
    {
      if c == cycle {
        assert After(algs, running, exec, cycle, 0) == running;
      }
    }
  }

  /** What the code does at its end to make the default output file the
      current directory: with the default name present it calls cd() on
      the entry, which is a null dereference when the entry is the null one
      getOutFile leaves behind. */
  datatype CdAction = NoCd | Cd(file: FileRef) | NullDereference

  /** The change of directory as the code writes it: it tests only that
      the default name is a key of the output map. */
  function DefaultCdAsWritten(outFiles: map<string, Option<FileRef>>): (r: CdAction)
    ensures r != NoCd <==> DefaultFile in outFiles
    ensures r == NullDereference <==> DefaultFile in outFiles && outFiles[DefaultFile] == None
  {
    if DefaultFile in outFiles then
      match outFiles[DefaultFile]
      case None => NullDereference
      case Some(f) => Cd(f)
    else NoCd
  }

  /** An algorithm that asks for the default output file before any was
      made leaves the null entry behind, and the code then dereferences it. */
  lemma DefaultCdAsWrittenDereferencesNull()
    ensures DefaultCdAsWritten(GetOutFile(Empty(), DefaultFile).0.outFiles) == NullDereference
  {
  }

  /** The change of directory as intended: only to a default output file
      that exists. */
  function DefaultCd(outFiles: map<string, Option<FileRef>>): (s: seq<Event>)
    ensures |s| <= 1
    ensures forall e :: e in s <==> e.CdDefault? && DefaultFile in outFiles && outFiles[DefaultFile] == Some(e.file)
  {
    if DefaultFile in outFiles && outFiles[DefaultFile].Some? then [CdDefault(outFiles[DefaultFile].value)] else []
  }

  /** The intended change of directory agrees with the code wherever the
      code does not dereference null, and does nothing where it does. */
  lemma DefaultCdAgreesWhereDefined(outFiles: map<string, Option<FileRef>>)
    ensures DefaultCdAsWritten(outFiles) == NoCd ==> DefaultCd(outFiles) == []
    ensures forall f :: DefaultCdAsWritten(outFiles) == Cd(f) ==> DefaultCd(outFiles) == [CdDefault(f)]
    ensures DefaultCdAsWritten(outFiles) == NullDereference ==> DefaultCd(outFiles) == []
  {
  }

  /** The outcome of process: the pipeline afterwards, the number of cycles
      run, and every call made on the components, in order. */
  datatype Processed = Processed(pipe: Pipeline, cycles: nat, trace: seq<Event>)

  /** The calls process makes, phase by phase. */
  function Trace(p: Pipeline, run: Run): seq<Event>
  {
    Setup(p) + run.trace + Teardown(p)
  }

  /** The calls process makes before its loop: a load of a registered
      algorithm, or a do_connect step of a registered algorithm or tool. */
  predicate SetupCall(p: Pipeline, e: Event)
  {
    || (e.Load? && e.alg < |p.algs|)
    || ((e.Bind? || e.Connect?) && e.kind == AlgKind && e.index < |p.algs|)
    || ((e.Bind? || e.Connect?) && e.kind == ToolKind && e.index < |p.tools|)
  }

  /** The calls process makes after its loop: the change of directory into
      the default output file, when one is bound, and a finalize of a
      registered algorithm. */
  predicate TeardownCall(p: Pipeline, e: Event)
  {
    || (e.CdDefault? && DefaultFile in p.outFiles && p.outFiles[DefaultFile] == Some(e.file))
    || (e.Finalize? && e.alg < |p.algs|)
  }

  /** The calls before the loop: load on every algorithm, then do_connect
      on every algorithm, then on every tool, and no other call. */
  function Setup(p: Pipeline): (s: seq<Event>)
    ensures Ordered(s)
    ensures forall e :: e in s ==> Phase(e) <= 2
    ensures forall e :: e in s <==> SetupCall(p, e)
  {
    var a := LoadPhase(|p.algs|);
    var b := ConnectPhase(AlgKind, |p.algs|);
    var c := ConnectPhase(ToolKind, |p.tools|);
    OrderedConcat(a, b);
    OrderedConcat(a + b, c);
    a + b + c
  }

  /** The calls after the loop: the change to the default output file,
      then finalize on every algorithm, and no other call. */
  function Teardown(p: Pipeline): (s: seq<Event>)
    ensures Ordered(s)
    ensures forall e :: e in s ==> Phase(e) >= 4
    ensures forall e :: e in s <==> TeardownCall(p, e)
  {
    var d := DefaultCd(p.outFiles);
    var f := FinalizePhase(|p.algs|);
    OrderedConcat(d, f);
    d + f
  }

  /** The phases come one after another: loads, algorithm connects, tool
      connects, execute() calls, the change of directory, finalizes. */
  lemma TraceOrdered(p: Pipeline, run: Run)
    requires Ordered(run.trace) && forall e :: e in run.trace ==> e.Execute?
    ensures Ordered(Trace(p, run))
  {
    OrderedConcat(Setup(p), run.trace);
    OrderedConcat(Setup(p) + run.trace, Teardown(p));
  }

  /** Which calls the trace holds: those before and after the loop, and
      the loop's own. */
  lemma TraceMembers(p: Pipeline, run: Run)
    ensures forall e :: e in Trace(p, run) <==> SetupCall(p, e) || e in run.trace || TeardownCall(p, e)
  {
    InConcat3(Setup(p), run.trace, Teardown(p));
  }

  /** Membership in a three-part trace. */
  lemma InConcat3(a: seq<Event>, b: seq<Event>, c: seq<Event>)
    ensures forall e :: e in a + b + c <==> e in a || e in b || e in c
  {
  }

  /** process(inFiles) with a bound of fuel + 1 cycles. It records the
      inputs, loads every algorithm, connects every algorithm and then every
      tool, runs cycles until the first one that leaves no reader running,
      changes directory into the default output file, and finalizes every
      algorithm (`ProcessCalls` states the order). The change of directory
      is the corrected one, `DefaultCd`: where the code would dereference
      null, nothing happens here. */
  function Process(p: Pipeline, inFiles: seq<string>, exec: Oracle, fuel: nat): (r: Option<Processed>)
    ensures r.Some? ==> && r.value.pipe.running == {}
                        && r.value.pipe.inPaths == inFiles
                        && r.value.pipe == p.(inPaths := inFiles, running := {})
    ensures r.Some? ==> InFileCount(r.value.pipe) == |inFiles|
    ensures r.Some? ==> 1 <= r.value.cycles <= fuel + 1
    ensures r.Some? ==> After(p.algs, p.running, exec, 0, r.value.cycles) == {}
    ensures r.Some? ==> forall n :: 1 <= n < r.value.cycles ==> After(p.algs, p.running, exec, 0, n) != {}
    ensures r.None? ==> forall n :: 1 <= n <= fuel + 1 ==> After(p.algs, p.running, exec, 0, n) != {}
    ensures Valid(p) && r.Some? ==> Valid(r.value.pipe)
  {
    match Loop(p.algs, p.running, exec, 0, fuel)
    case None => None
    case Some(run) =>
      Some(Processed(p.(inPaths := inFiles, running := {}), run.cycles, Trace(p, run)))
  }

  /** The calls a finished process made: each load, connect, change of
      directory and finalize exactly once, phase after phase and in
      insertion order within a phase, with no call on anything else, and
      exactly the execute() calls of each of its cycles. */
  lemma ProcessCalls(p: Pipeline, inFiles: seq<string>, exec: Oracle, fuel: nat)
    requires Process(p, inFiles, exec, fuel).Some?
    ensures Ordered(Process(p, inFiles, exec, fuel).value.trace)
    ensures forall e: Event :: !e.Execute? ==>
              (e in Process(p, inFiles, exec, fuel).value.trace <==> SetupCall(p, e) || TeardownCall(p, e))
    ensures forall c: nat, i: nat ::
              Execute(c, i) in Process(p, inFiles, exec, fuel).value.trace <==>
                c < Process(p, inFiles, exec, fuel).value.cycles
                && i in RunCycle(p.algs, After(p.algs, p.running, exec, 0, c), exec, c).invoked
  {
    var run := Loop(p.algs, p.running, exec, 0, fuel).value;
    LoopTraceOrdered(p.algs, p.running, exec, 0, fuel);
    LoopExecutes(p.algs, p.running, exec, 0, fuel);
    TraceOrdered(p, run);
    TraceMembers(p, run);
  }

  /** After process, inFileCount() is the number of paths given to it, and
      inFile(i) opens exactly the i-th of them; the index one past the end
      raises. */
  lemma ProcessedInputs(p: Pipeline, inFiles: seq<string>, exec: Oracle, fuel: nat)
    requires Valid(p) && Process(p, inFiles, exec, fuel).Some?
    ensures InFileCount(Process(p, inFiles, exec, fuel).value.pipe) == |inFiles|
    ensures forall i: nat :: i < |inFiles| ==>
              InFile(Process(p, inFiles, exec, fuel).value.pipe, i).1.Ok?
              && InFile(Process(p, inFiles, exec, fuel).value.pipe, i).1.value.path == inFiles[i]
    ensures InFile(Process(p, inFiles, exec, fuel).value.pipe, |inFiles|).1 == Err(OutOfRange(|inFiles|))
  {
  }

  /** The loop ends within fuel + 1 cycles exactly when some number of
      cycles up to that bound leaves no reader running. */
  lemma LoopEndsIff(algs: seq<Component>, running: set<nat>, exec: Oracle, fuel: nat)
    ensures Loop(algs, running, exec, 0, fuel).Some? <==>
              exists n :: 1 <= n <= fuel + 1 && After(algs, running, exec, 0, n) == {}
  {
    if Loop(algs, running, exec, 0, fuel).Some? {
      var run := Loop(algs, running, exec, 0, fuel).value;
      var n := run.cycles;
      assert After(algs, running, exec, 0, run.cycles - 0) == {};
      assert n == run.cycles - 0;
      assert 1 <= n <= fuel + 1 && After(algs, running, exec, 0, n) == {};
    } else {
      assert forall n :: 1 <= n <= fuel + 1 ==> After(algs, running, exec, 0, n) != {};
    }
  }

  /** With no skips and every reader reporting end of file on its
      `deadline`-th cycle, process runs exactly as many cycles as the latest
      deadline, and at least one. */
  lemma ProcessLastsUntilLastDeadline(p: Pipeline, inFiles: seq<string>, exec: Oracle, deadline: nat -> nat, fuel: nat)
    requires forall r :: r in p.running ==> r < |p.algs| && p.algs[r].isReader && 1 <= deadline(r) <= fuel + 1
    requires forall j: nat, c: nat :: j < |p.algs| ==> exec(j, c) != SkipToNext
    requires forall r: nat, c: nat :: r in p.running ==> (exec(r, c) == EndOfFile <==> c + 1 >= deadline(r))
    ensures Process(p, inFiles, exec, fuel).Some?
    ensures forall r :: r in p.running ==> deadline(r) <= Process(p, inFiles, exec, fuel).value.cycles
    ensures Process(p, inFiles, exec, fuel).value.cycles == 1
            || exists r :: r in p.running && deadline(r) == Process(p, inFiles, exec, fuel).value.cycles
  {
    ReadersWithDeadlines(p.algs, p.running, exec, deadline, fuel + 1);
    LoopEndsIff(p.algs, p.running, exec, fuel);
    var k := Process(p, inFiles, exec, fuel).value.cycles;
    DeadlineCycles(p.algs, p.running, exec, deadline, k);
  }

  /** Helper: the first cycle count that leaves no reader running is the
      latest deadline (or 1). */
  lemma DeadlineCycles(algs: seq<Component>, running: set<nat>, exec: Oracle, deadline: nat -> nat, k: nat)
    requires forall r :: r in running ==> r < |algs| && algs[r].isReader && 1 <= deadline(r)
    requires forall j: nat, c: nat :: j < |algs| ==> exec(j, c) != SkipToNext
    requires forall r: nat, c: nat :: r in running ==> (exec(r, c) == EndOfFile <==> c + 1 >= deadline(r))
    requires 1 <= k && After(algs, running, exec, 0, k) == {}
    requires forall n :: 1 <= n < k ==> After(algs, running, exec, 0, n) != {}
    ensures forall r :: r in running ==> deadline(r) <= k
    ensures k == 1 || exists r :: r in running && deadline(r) == k
  {
    ReadersWithDeadlines(algs, running, exec, deadline, k);
    if k > 1 {
      ReadersWithDeadlines(algs, running, exec, deadline, k - 1);
      var r :| r in After(algs, running, exec, 0, k - 1);
      assert deadline(r) > k - 1;
      assert r !in After(algs, running, exec, 0, k);
    }
  }

  /** With no reader registered, process still runs one cycle. */
  lemma NoReadersOneCycle(p: Pipeline, inFiles: seq<string>, exec: Oracle, fuel: nat)
    requires p.running == {}
    ensures Process(p, inFiles, exec, fuel).Some?
    ensures Process(p, inFiles, exec, fuel).value.cycles == 1
  {
  }
}

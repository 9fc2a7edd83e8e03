/** One pass of the execution loop of Pipeline::process over the
    algorithms, and the running readers left after any number of passes.
    What execute() returns is an oracle `exec(alg, cycle)`: the position of
    the algorithm and the number of the cycle (counted from 0). */
module Cycles {
  import opened Components

  /** What every algorithm's execute() returns on every cycle. */
  type Oracle = (nat, nat) -> Status

  /** Algorithm `j` is invoked when reached: it is not a reader, or it is a
      reader still running. */
  predicate Eligible(algs: seq<Component>, running: set<nat>, j: nat)
    requires j < |algs|
  {
    !algs[j].isReader || j in running
  }

  /** No algorithm invoked among positions lo..hi-1 asks to skip. */
  ghost predicate NoSkipBetween(algs: seq<Component>, running: set<nat>, exec: Oracle, cycle: nat, lo: nat, hi: nat)
    requires hi <= |algs|
  {
    forall k :: lo <= k < hi && Eligible(algs, running, k) ==> exec(k, cycle) != SkipToNext
  }

  /** Strictly increasing positions. */
  ghost predicate Increasing(s: seq<nat>)
  {
    forall a, b :: 0 <= a < b < |s| ==> s[a] < s[b]
  }

  /** The readers still running after a cycle, and the positions of the
      algorithms whose execute() the cycle invoked, in order. */
  datatype CycleOutcome = CycleOutcome(running: set<nat>, invoked: seq<nat>)

  /** The rest of cycle `cycle` from position `i` on. A reader that stopped
      running is passed over without being invoked; SkipToNext ends the
      cycle and removes nothing; EndOfFile removes that algorithm from the
      running readers and the cycle goes on. The algorithms are invoked in
      insertion order, and readers only ever leave the running set;
      `CycleFromMeaning` states the rest. */
  function CycleFrom(algs: seq<Component>, running: set<nat>, exec: Oracle, cycle: nat, i: nat): (r: CycleOutcome)
    requires i <= |algs|
    decreases |algs| - i
    ensures Increasing(r.invoked)
    ensures forall k :: 0 <= k < |r.invoked| ==> i <= r.invoked[k] < |algs|
    ensures r.running <= running
  {
    if i == |algs| then CycleOutcome(running, [])
    else if algs[i].isReader && i !in running then CycleFrom(algs, running, exec, cycle, i + 1)
    else match exec(i, cycle)
      case SkipToNext => CycleOutcome(running, [i])
      case EndOfFile =>
        var rest := CycleFrom(algs, running - {i}, exec, cycle, i + 1);
        CycleOutcome(rest.running, [i] + rest.invoked)
      case Continue =>
        var rest := CycleFrom(algs, running, exec, cycle, i + 1);
        CycleOutcome(rest.running, [i] + rest.invoked)
  }

  /** The cycle's meaning stated position by position: an algorithm is
      invoked exactly when it is eligible and no earlier algorithm invoked
      in this cycle skipped, and a reader leaves the running set exactly
      when it was invoked and reported end of file. */
  lemma {:induction false} CycleFromMeaning(algs: seq<Component>, running: set<nat>, exec: Oracle, cycle: nat, i: nat)
    requires i <= |algs|
    ensures var r := CycleFrom(algs, running, exec, cycle, i);
            && (forall j :: i <= j < |algs| ==>
                  (j in r.invoked <==> Eligible(algs, running, j) && NoSkipBetween(algs, running, exec, cycle, i, j)))
            && (forall j :: j in r.running <==> j in running && !(j in r.invoked && exec(j, cycle) == EndOfFile))
    decreases |algs| - i
  {
    if i < |algs| {
      if algs[i].isReader && i !in running {
        CycleFromMeaning(algs, running, exec, cycle, i + 1);
      } else if exec(i, cycle) == EndOfFile {
        CycleFromMeaning(algs, running - {i}, exec, cycle, i + 1);
      } else if exec(i, cycle) == Continue {
        CycleFromMeaning(algs, running, exec, cycle, i + 1);
      }
    }
  }

  /** A whole cycle, from the first algorithm. */
  function RunCycle(algs: seq<Component>, running: set<nat>, exec: Oracle, cycle: nat): (r: CycleOutcome)
    ensures Increasing(r.invoked)
    ensures forall k :: 0 <= k < |r.invoked| ==> r.invoked[k] < |algs|
    ensures r.running <= running
  {
    CycleFrom(algs, running, exec, cycle, 0)
  }

  /** CycleFromMeaning for a whole cycle. */
  lemma CycleMeaning(algs: seq<Component>, running: set<nat>, exec: Oracle, cycle: nat)
    ensures var r := RunCycle(algs, running, exec, cycle);
            && (forall j :: 0 <= j < |algs| ==>
                  (j in r.invoked <==> Eligible(algs, running, j) && NoSkipBetween(algs, running, exec, cycle, 0, j)))
            && (forall j :: j in r.running <==> j in running && !(j in r.invoked && exec(j, cycle) == EndOfFile))
  {
    CycleFromMeaning(algs, running, exec, cycle, 0);
  }

  /** The running readers after `n` cycles numbered start, start+1, ... */
  function After(algs: seq<Component>, running: set<nat>, exec: Oracle, start: nat, n: nat): set<nat>
    decreases n
  {
    if n == 0 then running
    else RunCycle(algs, After(algs, running, exec, start, n - 1), exec, start + n - 1).running
  }

  /** Running n+1 cycles from `start` is running the first cycle and then n
      more from the next cycle number. */
  lemma {:induction false} AfterShift(algs: seq<Component>, running: set<nat>, exec: Oracle, start: nat, n: nat)
    ensures After(algs, running, exec, start, n + 1)
            == After(algs, RunCycle(algs, running, exec, start).running, exec, start + 1, n)
    decreases n
  {
    var r1 := RunCycle(algs, running, exec, start).running;
    if n == 0 {
      assert After(algs, running, exec, start, 0) == running;
      assert After(algs, running, exec, start, 1) == r1;
    } else {
      AfterShift(algs, running, exec, start, n - 1);
      var mid := After(algs, running, exec, start, n);
      assert mid == After(algs, r1, exec, start + 1, n - 1);
      assert After(algs, running, exec, start, n + 1) == RunCycle(algs, mid, exec, start + n).running;
      assert After(algs, r1, exec, start + 1, n) == RunCycle(algs, mid, exec, start + n).running;
    }
  }

  /** AfterShift for every count at once. */
  lemma AfterShiftAll(algs: seq<Component>, running: set<nat>, exec: Oracle, start: nat)
    ensures forall n :: n >= 1 ==>
              After(algs, running, exec, start, n)
              == After(algs, RunCycle(algs, running, exec, start).running, exec, start + 1, n - 1)
  {
    forall n | n >= 1
      ensures After(algs, running, exec, start, n)
              == After(algs, RunCycle(algs, running, exec, start).running, exec, start + 1, n - 1)
    {
      AfterShift(algs, running, exec, start, n - 1);
    }
  }

  /** The running readers never grow: after more cycles there are at most
      the readers there were after fewer. */
  lemma {:induction false} RunningNeverGrows(algs: seq<Component>, running: set<nat>, exec: Oracle, start: nat, m: nat, n: nat)
    requires m <= n
    ensures After(algs, running, exec, start, n) <= After(algs, running, exec, start, m)
    decreases n - m
  {
    if m < n {
      RunningNeverGrows(algs, running, exec, start, m, n - 1);
    }
  }

  /** Only registered readers stay running: a cycle keeps the set of
      running positions within the readers. */
  lemma CycleKeepsReaders(algs: seq<Component>, running: set<nat>, exec: Oracle, cycle: nat)
    requires forall r :: r in running ==> r < |algs| && algs[r].isReader
    ensures forall r :: r in RunCycle(algs, running, exec, cycle).running ==> r < |algs| && algs[r].isReader
  {
    CycleMeaning(algs, running, exec, cycle);
  }

  /** SkipToNext from the algorithm at position k ends the cycle there:
      no later algorithm is invoked, and no reader leaves the running set
      because of the skip. */
  lemma SkipStopsCycle(algs: seq<Component>, running: set<nat>, exec: Oracle, cycle: nat, k: nat)
    requires k < |algs| && k in RunCycle(algs, running, exec, cycle).invoked
    requires exec(k, cycle) == SkipToNext
    ensures forall j :: k < j < |algs| ==> j !in RunCycle(algs, running, exec, cycle).invoked
    ensures k in running ==> k in RunCycle(algs, running, exec, cycle).running
  {
    CycleMeaning(algs, running, exec, cycle);
  }

  /** EndOfFile from an invoked reader removes exactly that reader: every
      other running reader stays unless it reported end of file itself, and
      the cycle goes on to every later eligible algorithm unless one of
      them skips. */
  lemma EndOfFileRemovesOnlyThatReader(algs: seq<Component>, running: set<nat>, exec: Oracle, cycle: nat, k: nat)
    requires k < |algs| && k in RunCycle(algs, running, exec, cycle).invoked
    requires exec(k, cycle) == EndOfFile
    ensures k !in RunCycle(algs, running, exec, cycle).running
    ensures forall j :: j != k && j in running && exec(j, cycle) != EndOfFile ==> j in RunCycle(algs, running, exec, cycle).running
    ensures forall j :: k < j < |algs| ==>
              (Eligible(algs, running, j) && NoSkipBetween(algs, running, exec, cycle, k + 1, j)
               ==> j in RunCycle(algs, running, exec, cycle).invoked)
  {
    CycleMeaning(algs, running, exec, cycle);
  }

  /** An algorithm whose execute() returns vetoIf(cond) decides the cycle:
      with the condition, no later algorithm is invoked; without it, every
      later eligible algorithm is reached unless one in between skips. In
      either case the algorithm stays running, since a veto never reports
      end of file. */
  lemma VetoDecidesCycle(algs: seq<Component>, running: set<nat>, exec: Oracle, cycle: nat, k: nat, cond: bool)
    requires k < |algs| && k in RunCycle(algs, running, exec, cycle).invoked
    requires exec(k, cycle) == VetoIf(cond)
    ensures cond ==> forall j :: k < j < |algs| ==> j !in RunCycle(algs, running, exec, cycle).invoked
    ensures forall j :: k < j < |algs| && Eligible(algs, running, j) && NoSkipBetween(algs, running, exec, cycle, k + 1, j)
                        ==> (j in RunCycle(algs, running, exec, cycle).invoked <==> !cond)
    ensures k in running <==> k in RunCycle(algs, running, exec, cycle).running
  {
    CycleMeaning(algs, running, exec, cycle);
  }

  /** With no skips, readers that report end of file on their `deadline`-th
      cycle (and not before) are running after n cycles exactly when their
      deadline lies beyond n. */
  lemma {:induction false} ReadersWithDeadlines(algs: seq<Component>, running: set<nat>, exec: Oracle, deadline: nat -> nat, n: nat)
    requires forall r :: r in running ==> r < |algs| && algs[r].isReader && deadline(r) >= 1
    requires forall j: nat, c: nat :: j < |algs| ==> exec(j, c) != SkipToNext
    requires forall r: nat, c: nat :: r in running ==> (exec(r, c) == EndOfFile <==> c + 1 >= deadline(r))
    ensures forall r :: r in After(algs, running, exec, 0, n) <==> r in running && deadline(r) > n
    decreases n
  {
    if n > 0 {
      ReadersWithDeadlines(algs, running, exec, deadline, n - 1);
      var before := After(algs, running, exec, 0, n - 1);
      var out := RunCycle(algs, before, exec, n - 1);
      CycleMeaning(algs, before, exec, n - 1);
      forall r | r in running && deadline(r) > n - 1
        ensures r in out.invoked
      {
        assert Eligible(algs, before, r);
        assert NoSkipBetween(algs, before, exec, n - 1, 0, r);
      }
    }
  }
}

/** What the PRC makes of the tasks it takes and of the selector's answers, over whole runs. */
module Decisions {
  import opened Types
  import opened Modules
  import opened Configuration
  import opened Machine
  import opened Protocol
  import opened Safety
  import opened TaskOrder
  import Application
  import PrcSpec
  import Dispatch
  import Scheduler
  import Selector

  /** What the scheduler and the selector work by: the task graph and the two comparators. */
  datatype Plan = Plan(graph: Scheduler.TaskGraph, lessFlex: (nat, nat) -> bool, lessSpeed: (real, real) -> bool)

  /** The PRC asks its selector for a bitstream in the cycle from this state. */
  predicate Asks(s: State) { s.core.prc.st == PrcSpec.RrSchedule }

  /** The bitstream that was found is on its way: neither is its region being given another one
      nor does the region hold it already, as far as the unconnected wires say. */
  predicate MakesRequest(s: State, inp: Inputs) {
    Asks(s) && inp.prc.selection.Found? && !inp.prc.installed && !(s.sig.icapTrans && inp.prc.targeted)
  }

  /** The PRC gives the task up: nothing was found, or its region is being given another module. */
  predicate GivesUp(s: State, inp: Inputs) {
    && Asks(s)
    && (inp.prc.selection.NotFound? ||
        (inp.prc.selection.Found? && !inp.prc.installed && s.sig.icapTrans && inp.prc.targeted))
  }

  /** The request for a found bitstream: its task type is the one of the task taken. */
  function RequestOf(s: State, inp: Inputs): seq<Request> {
    if MakesRequest(s, inp) && inp.prc.selection.Found? && s.core.prc.task.typeId.Some?
    then [Request(inp.prc.selection.spec, s.core.prc.task.typeId.value)] else []
  }

  /** The selector's answer to the PRC is the one for its task and the regions executing now. */
  ghost predicate Chosen(cfg: Config, plan: Plan, s: State, inp: Inputs) {
    Asks(s) ==> Selector.Answers(cfg.specs, s.sig.executing, plan.lessFlex, plan.lessSpeed, s.core.prc.task,
                                 inp.prc.selection)
  }

  ghost predicate PlannedAt(cfg: Config, plan: Plan, run: seq<State>, inps: seq<Inputs>, k: nat)
    requires k < |inps| < |run|
  {
    ScheduledAt(plan.graph, run, inps, k) && Chosen(cfg, plan, run[k], inps[k])
  }

  /** In every cycle the PRC gets the scheduler's and the selector's answers by this plan. */
  ghost predicate Planned(cfg: Config, plan: Plan, run: seq<State>, inps: seq<Inputs>) {
    |run| == |inps| + 1 && forall k :: 0 <= k < |inps| ==> PlannedAt(cfg, plan, run, inps, k)
  }

  lemma PlannedScheduled(cfg: Config, plan: Plan, run: seq<State>, inps: seq<Inputs>)
    requires Planned(cfg, plan, run, inps)
    ensures Scheduled(plan.graph, run, inps)
  {
    forall k | 0 <= k < |inps|
      ensures ScheduledAt(plan.graph, run, inps, k)
    {
      assert PlannedAt(cfg, plan, run, inps, k);
    }
  }

  /** The requests of the first `k` cycles, by the selector's answers alone. */
  function RequestsMade(run: seq<State>, inps: seq<Inputs>, k: nat): seq<Request>
    requires k <= |inps| < |run|
  {
    if k == 0 then [] else RequestsMade(run, inps, k - 1) + RequestOf(run[k - 1], inps[k - 1])
  }

  /** What one cycle does to the PRC. */
  predicate PrcMoves(s: State, inp: Inputs, t: State) {
    && (Asks(t) <==> Takes(s))
    && (Takes(t) <==>
          s.core.prc.st == PrcSpec.Init || GivesUp(s, inp) || (s.core.prc.st == PrcSpec.ReqIcap && s.sig.icapAck))
    && (t.core.prc.st == PrcSpec.ReqIcap <==>
          MakesRequest(s, inp) || (s.core.prc.st == PrcSpec.ReqIcap && !s.sig.icapAck))
    && (t.core.prc.st == PrcSpec.RrEnqueue <==> Asks(s) && inp.prc.selection.Found? && inp.prc.installed)
    && t.core.prc.st != PrcSpec.Init
    && (!Takes(s) ==> t.core.prc.task == s.core.prc.task)
    && t.hist.requested == s.hist.requested + RequestOf(s, inp)
    && (MakesRequest(s, inp) ==> |RequestOf(s, inp)| == 1)
  }

  lemma PrcTurns(cfg: Config, s: State, inp: Inputs, t: State)
    requires Control(cfg, s) && SignalsFor(s.core, s.sig, inp) && Turns(cfg, s, inp, t)
    requires ValidInputs(cfg, s, inp)
    ensures PrcMoves(s, inp, t)
  {
  }

  lemma PrcMovesAt(cfg: Config, run: seq<State>, inps: seq<Inputs>, k: nat)
    requires IsRun(cfg, run, inps) && Reachable(cfg, run[0]) && k < |inps|
    ensures PrcMoves(run[k], inps[k], run[k + 1])
  {
    RunTurns(cfg, run, inps, k);
    assert TransitionAt(cfg, run, inps, k);
    PrcTurns(cfg, run[k], inps[k], run[k + 1]);
  }

  // ---------------------------------------------------------------- every task is asked about once

  /** Number of questions to the selector in the first `k` cycles. */
  function Questions(run: seq<State>, k: nat): nat
    requires k <= |run|
  {
    if k == 0 then 0 else Questions(run, k - 1) + if Asks(run[k - 1]) then 1 else 0
  }

  /** All tasks taken have been asked about, but for the one that is being asked about: it is the
      last one taken. */
  predicate AllAsked(run: seq<State>, k: nat)
    requires k < |run|
  {
    && Taken(run, k) == Questions(run, k) + (if Asks(run[k]) then 1 else 0)
    && |TasksTaken(run, k)| == Taken(run, k)
    && (Asks(run[k]) ==> TasksTaken(run, k)[|TasksTaken(run, k)| - 1] == run[k].core.prc.task)
  }

  lemma AskedNext(run: seq<State>, k: nat)
    requires k + 1 < |run| && AllAsked(run, k) && (Asks(run[k + 1]) <==> Takes(run[k]))
    ensures AllAsked(run, k + 1)
  {
    TakenNext(run, k);
  }

  /** In every run each task the PRC takes is asked about in exactly one cycle, the next one. */
  lemma {:induction false} AskedOnce(cfg: Config, run: seq<State>, inps: seq<Inputs>, k: nat)
    requires IsRun(cfg, run, inps) && Reachable(cfg, run[0]) && !Asks(run[0]) && k < |run|
    ensures AllAsked(run, k)
    ensures Asks(run[k]) <==> k > 0 && Takes(run[k - 1])
  {
    if k > 0 {
      var j := k - 1;
      AskedOnce(cfg, run, inps, j);
      PrcMovesAt(cfg, run, inps, j);
      AskedNext(run, j);
      assert AllAsked(run, j + 1);
    }
  }

  /** When no bitstream is found, or its region is being given another module, nothing is requested
      and the PRC goes on to the scheduler's next task; the old one is not asked about again. */
  lemma GivenUp(cfg: Config, g: Scheduler.TaskGraph, run: seq<State>, inps: seq<Inputs>, k: nat)
    requires IsRun(cfg, run, inps) && Reachable(cfg, run[0]) && Scheduled(g, run, inps) && k < |inps|
    requires GivesUp(run[k], inps[k])
    ensures Takes(run[k + 1]) && Taken(run, k + 1) == Taken(run, k)
    ensures run[k + 1].hist.requested == run[k].hist.requested
    ensures k + 1 < |inps| ==>
              && Asks(run[k + 2]) && Taken(run, k + 2) == Taken(run, k) + 1
              && |Dispatch.DispatchedAfter(g, Taken(run, k) + 1)| == Taken(run, k) + 1
              && run[k + 2].core.prc.task.key == Dispatch.DispatchedAfter(g, Taken(run, k) + 1)[Taken(run, k)]
  {
    PrcMovesAt(cfg, run, inps, k);
    assert !Takes(run[k]);
    TakenNext(run, k);
    if k + 1 < |inps| {
      PrcMovesAt(cfg, run, inps, k + 1);
      TakenNext(run, k + 1);
      WorksInOrder(cfg, g, run, inps, k + 2);
    }
  }

  /** The requests of a run are those for the bitstreams that were found and can be installed, in
      the order of the questions, each for its task's type. */
  lemma {:induction false} RequestedExactly(cfg: Config, run: seq<State>, inps: seq<Inputs>, k: nat)
    requires IsRun(cfg, run, inps) && Reachable(cfg, run[0]) && k < |run|
    ensures run[k].hist.requested == run[0].hist.requested + RequestsMade(run, inps, k)
  {
    if k > 0 {
      var j := k - 1;
      RequestedExactly(cfg, run, inps, j);
      PrcMovesAt(cfg, run, inps, j);
    }
  }

  // ---------------------------------------------------------------- answers and executing modules

  /** The region's module executes. */
  predicate Executes(s: State, region: nat) {
    region < |s.core.regions| && Current(s.core.regions[region]).st == Exec
  }

  /** A region the selector may choose: it can run the type and its module does not execute. */
  ghost predicate Free(cfg: Config, n: nat, s: State, typeId: string, region: nat) {
    region < n && Application.Capable(cfg.specs, typeId, region) && !Executes(s, region)
  }

  /** What the selector calls idle are the regions whose modules do not execute. */
  lemma IdleExactly(cfg: Config, n: nat, run: seq<State>, inps: seq<Inputs>, k: nat, q: nat)
    requires Simulates(cfg, n, run, inps) && k < |run|
    ensures Selector.Idle(run[k].sig.executing, q) <==> q < n && !Executes(run[k], q)
  {
    SimulationReachable(cfg, n, run, inps, k);
    if q < n {
      ExecutingMatches(cfg, n, run, inps, k, q);
    }
  }

  /** These busy lines are low for the regions whose modules do not execute, and only for them. */
  ghost predicate ShowsExecuting(busy: seq<bool>, s: State, n: nat) {
    forall q: nat :: Selector.Idle(busy, q) <==> q < n && !Executes(s, q)
  }

  lemma SignalShows(cfg: Config, n: nat, run: seq<State>, inps: seq<Inputs>, k: nat)
    requires Simulates(cfg, n, run, inps) && k < |run|
    ensures ShowsExecuting(run[k].sig.executing, run[k], n)
  {
    forall q: nat
      ensures Selector.Idle(run[k].sig.executing, q) <==> q < n && !Executes(run[k], q)
    {
      IdleExactly(cfg, n, run, inps, k, q);
    }
  }

  /** The PRC gets no bitstream for a task of a known type exactly when every region that can run
      it executes. */
  lemma NotFoundExactly(cfg: Config, n: nat, plan: Plan, run: seq<State>, inps: seq<Inputs>, k: nat)
    requires Simulates(cfg, n, run, inps) && Planned(cfg, plan, run, inps) && k < |inps| && Asks(run[k])
    ensures inps[k].prc.selection.NotFound? <==> AllBusy(cfg, n, run[k], run[k].core.prc.task)
  {
    assert PlannedAt(cfg, plan, run, inps, k);
    SignalShows(cfg, n, run, inps, k);
    BusyNotFound(cfg, n, plan, run[k], inps[k]);
  }

  ghost predicate AllBusy(cfg: Config, n: nat, s: State, task: Node) {
    && task.typeId.Some? && (exists q: nat :: Application.Capable(cfg.specs, task.typeId.value, q))
    && forall q: nat :: !Free(cfg, n, s, task.typeId.value, q)
  }

  lemma BusyNotFound(cfg: Config, n: nat, plan: Plan, s: State, inp: Inputs)
    requires Asks(s) && Chosen(cfg, plan, s, inp) && ShowsExecuting(s.sig.executing, s, n)
    ensures inp.prc.selection.NotFound? <==> AllBusy(cfg, n, s, s.core.prc.task)
  {
    Selector.NotFoundExactly(cfg.specs, s.sig.executing, plan.lessFlex, plan.lessSpeed, s.core.prc.task,
                             inp.prc.selection);
    if s.core.prc.task.typeId.Some? {
      forall q: nat
        ensures Free(cfg, n, s, s.core.prc.task.typeId.value, q) <==>
                  Application.Capable(cfg.specs, s.core.prc.task.typeId.value, q) && Selector.Idle(s.sig.executing, q)
      {
      }
    }
  }

  /** No other free region outranks this one in flexibility. */
  ghost predicate BestFree(cfg: Config, n: nat, plan: Plan, s: State, typeId: string, region: nat) {
    && Free(cfg, n, s, typeId, region)
    && forall q: nat :: Free(cfg, n, s, typeId, q) ==>
         !plan.lessFlex(Selector.Flexibility(cfg.specs, region), Selector.Flexibility(cfg.specs, q))
  }

  /** A bitstream that is found, and so every request, implements the task's type and is for a best
      region among those whose modules do not execute. */
  lemma FoundFree(cfg: Config, n: nat, plan: Plan, run: seq<State>, inps: seq<Inputs>, k: nat)
    requires Simulates(cfg, n, run, inps) && Planned(cfg, plan, run, inps) && k < |inps| && Asks(run[k])
    requires WellKeyed(cfg.specs) && inps[k].prc.selection.Found?
    ensures run[k].core.prc.task.typeId.Some?
    ensures Implements(inps[k].prc.selection.spec, run[k].core.prc.task.typeId.value)
    ensures BestFree(cfg, n, plan, run[k], run[k].core.prc.task.typeId.value, inps[k].prc.selection.spec.regionId)
    ensures var spec := inps[k].prc.selection.spec;
            Selector.BestModule(cfg.specs, plan.lessSpeed, run[k].core.prc.task.typeId.value, spec.regionId, spec.id)
  {
    assert PlannedAt(cfg, plan, run, inps, k);
    SignalShows(cfg, n, run, inps, k);
    FreeFound(cfg, n, plan, run[k], inps[k]);
  }

  lemma FreeFound(cfg: Config, n: nat, plan: Plan, s: State, inp: Inputs)
    requires Asks(s) && Chosen(cfg, plan, s, inp) && ShowsExecuting(s.sig.executing, s, n)
    requires WellKeyed(cfg.specs) && inp.prc.selection.Found?
    ensures s.core.prc.task.typeId.Some?
    ensures Implements(inp.prc.selection.spec, s.core.prc.task.typeId.value)
    ensures BestFree(cfg, n, plan, s, s.core.prc.task.typeId.value, inp.prc.selection.spec.regionId)
    ensures var spec := inp.prc.selection.spec;
            Selector.BestModule(cfg.specs, plan.lessSpeed, s.core.prc.task.typeId.value, spec.regionId, spec.id)
  {
    Selector.FoundBest(cfg.specs, s.sig.executing, plan.lessFlex, plan.lessSpeed, s.core.prc.task,
                       inp.prc.selection);
  }
}

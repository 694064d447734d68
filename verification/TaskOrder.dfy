/** The scheduler inside the composed machine: which tasks the PRC works on in a run, and what
    happens when there are none left. */
module TaskOrder {
  import opened Types
  import opened Configuration
  import opened Machine
  import opened Protocol
  import opened Safety
  import PrcSpec
  import Dispatch
  import Scheduler

  /** The PRC asks its scheduler for a task in the cycle from this state. */
  predicate Takes(s: State) { s.core.prc.st == PrcSpec.TaskSchedule }

  /** Number of tasks taken in the first `k` cycles. */
  function Taken(run: seq<State>, k: nat): nat
    requires k <= |run|
  {
    if k == 0 then 0 else Taken(run, k - 1) + if Takes(run[k - 1]) then 1 else 0
  }

  /** The tasks themselves, in order. */
  function TasksTaken(run: seq<State>, k: nat): seq<Node>
    requires k < |run|
  {
    if k == 0 then []
    else TasksTaken(run, k - 1) + if Takes(run[k - 1]) then [run[k].core.prc.task] else []
  }

  /** The task offered to the PRC in cycle `k` is the front of the scheduler's queue. */
  predicate ScheduledAt(g: Scheduler.TaskGraph, run: seq<State>, inps: seq<Inputs>, k: nat)
    requires k < |inps| < |run|
  {
    inps[k].prc.next == Scheduler.Front(g, Dispatch.QueueAfter(g, Taken(run, k)))
  }

  ghost predicate Scheduled(g: Scheduler.TaskGraph, run: seq<State>, inps: seq<Inputs>) {
    |run| == |inps| + 1 && forall k :: 0 <= k < |inps| ==> ScheduledAt(g, run, inps, k)
  }

  lemma {:induction false} TakenPrefix(run: seq<State>, more: seq<State>, k: nat)
    requires k <= |run|
    ensures Taken(run + more, k) == Taken(run, k)
  {
    if k > 0 {
      TakenPrefix(run, more, k - 1);
    }
  }

  lemma TakesFront(cfg: Config, run: seq<State>, inps: seq<Inputs>, k: nat)
    requires IsRun(cfg, run, inps) && Reachable(cfg, run[0]) && k < |inps| && Takes(run[k])
    ensures inps[k].prc.next == Some(run[k + 1].core.prc.task)
  {
    RunTurns(cfg, run, inps, k);
  }

  function Nodes(g: Scheduler.TaskGraph, keys: seq<string>): seq<Node> {
    seq(|keys|, j requires 0 <= j < |keys| => Scheduler.NodeOf(g, keys[j]))
  }

  /** The tasks taken so far are the scheduler's first dispatches. */
  predicate InStep(g: Scheduler.TaskGraph, run: seq<State>, k: nat)
    requires k < |run|
  {
    TasksTaken(run, k) == Nodes(g, Dispatch.DispatchedAfter(g, Taken(run, k))) && |TasksTaken(run, k)| == Taken(run, k)
  }

  lemma DispatchNodes(g: Scheduler.TaskGraph, n: nat)
    ensures Nodes(g, Dispatch.DispatchedAfter(g, n + 1)) == Nodes(g, Dispatch.DispatchedAfter(g, n)) +
              (if Dispatch.QueueAfter(g, n) == [] then [] else [Scheduler.NodeOf(g, Dispatch.QueueAfter(g, n)[0])])
  {
  }

  lemma TakenNext(run: seq<State>, k: nat)
    requires k + 1 < |run|
    ensures Taken(run, k + 1) == Taken(run, k) + (if Takes(run[k]) then 1 else 0)
    ensures TasksTaken(run, k + 1) == TasksTaken(run, k) + (if Takes(run[k]) then [run[k + 1].core.prc.task] else [])
  {
  }

  lemma InStepFirst(g: Scheduler.TaskGraph, run: seq<State>)
    requires run != []
    ensures InStep(g, run, 0)
  {
  }

  lemma InStepNext(g: Scheduler.TaskGraph, run: seq<State>, k: nat)
    requires k + 1 < |run| && InStep(g, run, k)
    requires Takes(run[k]) ==>
               Scheduler.Front(g, Dispatch.QueueAfter(g, Taken(run, k))) == Some(run[k + 1].core.prc.task)
    ensures InStep(g, run, k + 1)
  {
    TakenNext(run, k);
    DispatchNodes(g, Taken(run, k));
  }

  /** A task that is taken is the front of the scheduler's queue. */
  lemma TakesScheduled(cfg: Config, g: Scheduler.TaskGraph, run: seq<State>, inps: seq<Inputs>, k: nat)
    requires IsRun(cfg, run, inps) && Reachable(cfg, run[0]) && Scheduled(g, run, inps) && k < |inps|
    ensures Takes(run[k]) ==>
              Scheduler.Front(g, Dispatch.QueueAfter(g, Taken(run, k))) == Some(run[k + 1].core.prc.task)
  {
    assert ScheduledAt(g, run, inps, k);
    if Takes(run[k]) {
      TakesFront(cfg, run, inps, k);
    }
  }

  lemma InStepRun(cfg: Config, g: Scheduler.TaskGraph, run: seq<State>, inps: seq<Inputs>, k: nat)
    requires IsRun(cfg, run, inps) && Reachable(cfg, run[0]) && Scheduled(g, run, inps) && k < |inps|
    requires InStep(g, run, k)
    ensures InStep(g, run, k + 1)
  {
    TakesScheduled(cfg, g, run, inps, k);
    InStepNext(g, run, k);
  }

  /** The node has this key, and the type the graph's metadata give for it, if any. */
  predicate StandsFor(g: Scheduler.TaskGraph, node: Node, key: string) {
    && node.key == key
    && (if key in g.types then node.typeId == g.types[key] else node.typeId.None?)
  }

  /** Every task taken so far has the key and the type of the scheduler's dispatch at its place. */
  predicate WorkedOn(g: Scheduler.TaskGraph, run: seq<State>, k: nat)
    requires k < |run|
  {
    && |TasksTaken(run, k)| == Taken(run, k) == |Dispatch.DispatchedAfter(g, Taken(run, k))|
    && forall j :: 0 <= j < Taken(run, k) ==>
         StandsFor(g, TasksTaken(run, k)[j], Dispatch.DispatchedAfter(g, Taken(run, k))[j])
  }

  lemma {:induction false} AllInStep(cfg: Config, g: Scheduler.TaskGraph, run: seq<State>, inps: seq<Inputs>, k: nat)
    requires IsRun(cfg, run, inps) && Reachable(cfg, run[0]) && Scheduled(g, run, inps) && k < |run|
    ensures InStep(g, run, k)
  {
    if k == 0 {
      InStepFirst(g, run);
    } else {
      var j := k - 1;
      AllInStep(cfg, g, run, inps, j);
      InStepRun(cfg, g, run, inps, j);
      assert InStep(g, run, j + 1);
    }
  }

  lemma NodesStand(g: Scheduler.TaskGraph, keys: seq<string>, nodes: seq<Node>)
    requires nodes == Nodes(g, keys)
    ensures |nodes| == |keys| && forall j :: 0 <= j < |keys| ==> StandsFor(g, nodes[j], keys[j])
  {
  }

  /** The tasks the PRC works on in a run are the scheduler's dispatches, in order. */
  lemma WorksInOrder(cfg: Config, g: Scheduler.TaskGraph, run: seq<State>, inps: seq<Inputs>, k: nat)
    requires IsRun(cfg, run, inps) && Reachable(cfg, run[0]) && Scheduled(g, run, inps) && k < |run|
    ensures WorkedOn(g, run, k)
  {
    AllInStep(cfg, g, run, inps, k);
    NodesStand(g, Dispatch.DispatchedAfter(g, Taken(run, k)), TasksTaken(run, k));
  }

  lemma SomeLeft(g: Scheduler.TaskGraph, n: nat)
    requires Scheduler.WellFormed(g) && Dispatch.Acyclic(g) && n < Dispatch.Dispatches(g)
    ensures Dispatch.QueueAfter(g, n) != []
  {
    Dispatch.SchedulerFollows(g, n);
    Dispatch.MeasureAfter(g, n);
    EmptyMeasure(g, Dispatch.After(g, n).queue, |g.children.Keys|);
  }

  lemma EmptyMeasure(g: Scheduler.TaskGraph, queue: seq<Dispatch.Walk>, bound: nat)
    ensures queue == [] ==> Dispatch.Measure(g, queue, bound) == 0
    ensures queue != [] <==> Dispatch.Keys(queue) != []
  {
  }

  lemma NoneLeft(g: Scheduler.TaskGraph)
    requires Scheduler.WellFormed(g) && Dispatch.Acyclic(g)
    ensures Dispatch.QueueAfter(g, Dispatch.Dispatches(g)) == []
  {
    Dispatch.SchedulerFollows(g, Dispatch.Dispatches(g));
    Dispatch.Drains(g);
    EmptyMeasure(g, Dispatch.After(g, Dispatch.Dispatches(g)).queue, 0);
  }

  lemma {:induction false} StaysEmpty(g: Scheduler.TaskGraph, m: nat, n: nat)
    requires m <= n && Dispatch.QueueAfter(g, m) == []
    ensures Dispatch.QueueAfter(g, n) == []
    decreases n
  {
    if m < n {
      StaysEmpty(g, m, n - 1);
    }
  }

  lemma DispatchesLeft(g: Scheduler.TaskGraph, n: nat)
    requires Scheduler.WellFormed(g) && Dispatch.Acyclic(g)
    ensures Dispatch.QueueAfter(g, n) == [] <==> n >= Dispatch.Dispatches(g)
  {
    if n < Dispatch.Dispatches(g) {
      SomeLeft(g, n);
    } else {
      NoneLeft(g);
      StaysEmpty(g, Dispatch.Dispatches(g), n);
    }
  }

  /** On an acyclic graph no run takes more tasks than there are dispatches, and once all are taken
      the PRC's next question to the scheduler ends the simulation. */
  lemma OutlastsNoGraph(cfg: Config, g: Scheduler.TaskGraph, run: seq<State>, inps: seq<Inputs>, k: nat, inp: Inputs)
    requires IsRun(cfg, run, inps) && Reachable(cfg, run[0]) && Scheduled(g, run, inps) && k < |run|
    requires Scheduler.WellFormed(g) && Dispatch.Acyclic(g)
    requires CycleReady(run[k], inp) && inp.prc.next == Scheduler.Front(g, Dispatch.QueueAfter(g, Taken(run, k)))
    ensures Taken(run, k) <= Dispatch.Dispatches(g)
    ensures Takes(run[k]) && Taken(run, k) == Dispatch.Dispatches(g) ==> Cycle(cfg, run[k], inp).None?
  {
    TakenBounded(cfg, g, run, inps, k);
    DispatchesLeft(g, Taken(run, k));
    RunReachable(cfg, run, inps, k);
    if Takes(run[k]) && Taken(run, k) == Dispatch.Dispatches(g) {
      assert Fails(cfg, run[k].core, run[k].sig, inp, 0);
      CycleAdvances(cfg, run[k], inp);
    }
  }

  /** The scheduler's queue is empty after `n` dispatches exactly when these are all there are. */
  predicate LeftUntil(g: Scheduler.TaskGraph, n: nat, all: nat) {
    Dispatch.QueueAfter(g, n) == [] <==> n >= all
  }

  /** One more task is only taken while there is a dispatch left. */
  lemma BoundNext(cfg: Config, g: Scheduler.TaskGraph, run: seq<State>, inps: seq<Inputs>, k: nat, all: nat)
    requires IsRun(cfg, run, inps) && Reachable(cfg, run[0]) && Scheduled(g, run, inps) && k < |inps|
    requires LeftUntil(g, Taken(run, k), all) && Taken(run, k) <= all
    ensures Taken(run, k + 1) <= all
  {
    TakesScheduled(cfg, g, run, inps, k);
    TakenNext(run, k);
  }

  lemma {:induction false} TakenAtMost(cfg: Config, g: Scheduler.TaskGraph, run: seq<State>, inps: seq<Inputs>,
                                       k: nat, all: nat)
    requires IsRun(cfg, run, inps) && Reachable(cfg, run[0]) && Scheduled(g, run, inps) && k < |run|
    requires forall n: nat :: LeftUntil(g, n, all)
    ensures Taken(run, k) <= all
  {
    if k > 0 {
      var j := k - 1;
      TakenAtMost(cfg, g, run, inps, j, all);
      assert LeftUntil(g, Taken(run, j), all);
      BoundNext(cfg, g, run, inps, j, all);
    }
  }

  lemma TakenBounded(cfg: Config, g: Scheduler.TaskGraph, run: seq<State>, inps: seq<Inputs>, k: nat)
    requires IsRun(cfg, run, inps) && Reachable(cfg, run[0]) && Scheduled(g, run, inps) && k < |run|
    requires Scheduler.WellFormed(g) && Dispatch.Acyclic(g)
    ensures Taken(run, k) <= Dispatch.Dispatches(g)
  {
    forall n: nat
      ensures LeftUntil(g, n, Dispatch.Dispatches(g))
    {
      DispatchesLeft(g, n);
    }
    TakenAtMost(cfg, g, run, inps, k, Dispatch.Dispatches(g));
  }
}

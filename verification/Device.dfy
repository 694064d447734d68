/** The device as objects: building it for an application, and its simulation loop, which refines
    the composed machine cycle by cycle. */
module Device {
  import opened Types
  import opened Modules
  import opened Configuration
  import opened Storage
  import opened Machine
  import opened Preparation
  import Application
  import Components
  import IcapSpec
  import PrcSpec
  import PriorityQueue
  import RrcSpec
  import Safety
  import Scheduler
  import Selector
  import opened TaskOrder
  import opened Decisions
  import Dispatch

  // ---------------------------------------------------------------- lemmas on values

  /** What one component's step did to the composed state, as `StepOne` says. */
  ghost predicate Stepped(ok: bool, core: Core, r: Option<Core>) {
    ok == r.Some? && (ok ==> core == r.value)
  }

  /** The state after the first `k` components of the source's order have stepped. */
  ghost predicate Reached(cfg: Config, s: State, inp: Inputs, k: nat, core: Core) {
    && CycleReady(s, inp) && k <= |s.core.ctrls| + 2
    && RunOrder(cfg, s.core, s.sig, inp, SourceOrder(|s.core.ctrls|)[..k]) == Some(core)
  }

  /** The cycle from `s` faults. */
  ghost predicate NoCycle(cfg: Config, s: State, inp: Inputs) {
    CycleReady(s, inp) && Cycle(cfg, s, inp).None?
  }

  lemma OrderNext(cfg: Config, s: State, inp: Inputs, k: nat, mid: Core)
    requires Reached(cfg, s, inp, k, mid) && k < |s.core.ctrls| + 2
    ensures WellSized(mid) && |mid.ctrls| == |s.core.ctrls|
    ensures RunOrder(cfg, s.core, s.sig, inp, SourceOrder(|s.core.ctrls|)[..k + 1]) == StepOne(cfg, mid, s.sig, inp, k)
  {
    var order := SourceOrder(|s.core.ctrls|);
    assert order[..k + 1][..k] == order[..k] && order[..k + 1][k] == k;
  }

  lemma OrderStops(cfg: Config, s: State, inp: Inputs, k: nat)
    requires CycleReady(s, inp) && k <= |s.core.ctrls| + 2
    requires RunOrder(cfg, s.core, s.sig, inp, SourceOrder(|s.core.ctrls|)[..k]).None?
    ensures NoCycle(cfg, s, inp)
  {
    PrefixFails(cfg, s, inp, SourceOrder(|s.core.ctrls|), k);
  }

  lemma ReachedNext(cfg: Config, s: State, inp: Inputs, k: nat, mid: Core, ok: bool, core: Core)
    requires Reached(cfg, s, inp, k, mid) && k < |s.core.ctrls| + 2
    requires WellSized(mid) && |mid.ctrls| == |s.core.ctrls|
    requires Stepped(ok, core, StepOne(cfg, mid, s.sig, inp, k))
    ensures if ok then Reached(cfg, s, inp, k + 1, core) else NoCycle(cfg, s, inp)
  {
    OrderNext(cfg, s, inp, k, mid);
    if !ok {
      OrderStops(cfg, s, inp, k + 1);
    }
  }

  lemma ReachedAll(cfg: Config, s: State, inp: Inputs, core: Core)
    requires Reached(cfg, s, inp, |s.core.ctrls| + 2, core)
    ensures Cycle(cfg, s, inp) == Some(State(core, Latch(core), Record(s.hist, s.core, core)))
  {
    var order := SourceOrder(|s.core.ctrls|);
    assert order[..|order|] == order;
  }

  /** The unconnected wires' outcomes, the readiness guard's, and the enqueue lines of one cycle. */
  datatype Environment = Environment(installed: bool, targeted: bool, ready: bool, enqueue: seq<Option<Node>>)

  /** How many cycles the simulation loop runs: it has a safety stop. */
  function Cycles(stop: nat): nat { if stop < 1000 then stop else 1000 }

  ghost predicate Faults(cfg: Config, s: State, inp: Inputs) {
    ValidInputs(cfg, s, inp) && NoCycle(cfg, s, inp)
  }

  /** The inputs of a cycle come from this environment, but for the scheduler's and selector's. */
  predicate Matches(inp: Inputs, e: Environment) {
    && inp.prc.installed == e.installed && inp.prc.targeted == e.targeted
    && inp.ready == e.ready && inp.enqueue == e.enqueue
  }

  /** With this environment the cycle after the run faults. */
  ghost predicate FaultsNext(cfg: Config, run: seq<State>, inps: seq<Inputs>, e: Environment) {
    && |run| == |inps| + 1
    && exists inp :: Faults(cfg, run[|inps|], inp) && Matches(inp, e)
  }

  /** The inputs of the cycle from `s`: the environment's, and what the scheduler and the selector
      give by the plan; the scheduler's queue moves with the PRC. */
  ghost predicate Driven(cfg: Config, plan: Plan, s: State, inp: Inputs, e: Environment, queue: seq<string>,
                         queue': seq<string>)
  {
    && CycleReady(s, inp) && ValidInputs(cfg, s, inp) && Chosen(cfg, plan, s, inp) && Matches(inp, e)
    && inp.prc.next == Scheduler.Front(plan.graph, queue)
    && queue' == if Takes(s) then Scheduler.Dispatched(plan.graph, queue) else queue
  }

  lemma FaultEnds(cfg: Config, plan: Plan, run: seq<State>, inps: seq<Inputs>, e: Environment, inp: Inputs,
                  queue: seq<string>, queue': seq<string>)
    requires |run| == |inps| + 1 && Driven(cfg, plan, run[|inps|], inp, e, queue, queue')
    requires Cycle(cfg, run[|inps|], inp).None?
    ensures FaultsNext(cfg, run, inps, e)
  {
    assert Faults(cfg, run[|inps|], inp);
  }

  /** A run of the composed machine from `start` under the first inputs of an environment, in which
      the scheduler and the selector act by the plan. */
  ghost predicate RunsUnder(cfg: Config, plan: Plan, start: State, run: seq<State>, inps: seq<Inputs>,
                            env: seq<Environment>) {
    && IsRun(cfg, run, inps) && run[0] == start && Planned(cfg, plan, run, inps)
    && |inps| <= |env| && forall k :: 0 <= k < |inps| ==> Matches(inps[k], env[k])
  }

  lemma RunsStart(cfg: Config, plan: Plan, start: State, env: seq<Environment>)
    ensures RunsUnder(cfg, plan, start, [start], [], env)
    ensures Dispatch.QueueAfter(plan.graph, Taken([start], 0)) == plan.graph.starts
  {
  }

  /** Cycle `k` of a run, as `RunsUnder` wants it. */
  ghost predicate RunsAt(cfg: Config, plan: Plan, run: seq<State>, inps: seq<Inputs>, e: Environment,
                         k: nat)
    requires k < |inps| < |run|
  {
    TransitionAt(cfg, run, inps, k) && PlannedAt(cfg, plan, run, inps, k) && Matches(inps[k], e)
  }

  lemma RunsStill(cfg: Config, plan: Plan, run: seq<State>, inps: seq<Inputs>, e: Environment, k: nat,
                  inp: Inputs, next: State)
    requires k < |inps| < |run| && RunsAt(cfg, plan, run, inps, e, k)
    ensures RunsAt(cfg, plan, run + [next], inps + [inp], e, k)
  {
    TakenPrefix(run, [next], k);
  }

  lemma RunsLast(cfg: Config, plan: Plan, run: seq<State>, inps: seq<Inputs>, e: Environment,
                 inp: Inputs, next: State)
    requires |run| == |inps| + 1 && Transition(cfg, run[|inps|], inp, next) && Matches(inp, e)
    requires inp.prc.next == Scheduler.Front(plan.graph, Dispatch.QueueAfter(plan.graph, Taken(run, |inps|)))
    requires Chosen(cfg, plan, run[|inps|], inp)
    ensures RunsAt(cfg, plan, run + [next], inps + [inp], e, |inps|)
  {
    TakenPrefix(run, [next], |inps|);
  }

  lemma QueueGrows(plan: Plan, run: seq<State>, n: nat, next: State, queue: seq<string>,
                   queue': seq<string>)
    requires |run| == n + 1 && queue == Dispatch.QueueAfter(plan.graph, Taken(run, n))
    requires queue' == if Takes(run[n]) then Scheduler.Dispatched(plan.graph, queue) else queue
    ensures queue' == Dispatch.QueueAfter(plan.graph, Taken(run + [next], n + 1))
  {
    TakenPrefix(run, [next], n);
  }

  lemma RunGrows(cfg: Config, plan: Plan, start: State, run: seq<State>, inps: seq<Inputs>,
                 env: seq<Environment>, inp: Inputs, next: State)
    requires RunsUnder(cfg, plan, start, run, inps, env) && |inps| < |env| && Matches(inp, env[|inps|])
    requires Transition(cfg, run[|inps|], inp, next)
    requires inp.prc.next == Scheduler.Front(plan.graph, Dispatch.QueueAfter(plan.graph, Taken(run, |inps|)))
    requires Chosen(cfg, plan, run[|inps|], inp)
    ensures RunsUnder(cfg, plan, start, run + [next], inps + [inp], env)
  {
    forall k | 0 <= k < |inps| + 1
      ensures RunsAt(cfg, plan, run + [next], inps + [inp], env[k], k)
    {
      if k < |inps| {
        assert TransitionAt(cfg, run, inps, k) && PlannedAt(cfg, plan, run, inps, k);
        RunsStill(cfg, plan, run, inps, env[k], k, inp, next);
      } else {
        RunsLast(cfg, plan, run, inps, env[k], inp, next);
      }
    }
    RunsAll(cfg, plan, start, run + [next], inps + [inp], env);
  }

  lemma BothGrow(cfg: Config, plan: Plan, start: State, run: seq<State>, inps: seq<Inputs>,
                 env: seq<Environment>, inp: Inputs, next: State, queue: seq<string>, queue': seq<string>)
    requires RunsUnder(cfg, plan, start, run, inps, env) && |inps| < |env|
    requires Driven(cfg, plan, run[|inps|], inp, env[|inps|], queue, queue')
    requires Cycle(cfg, run[|inps|], inp) == Some(next)
    requires queue == Dispatch.QueueAfter(plan.graph, Taken(run, |inps|))
    ensures RunsUnder(cfg, plan, start, run + [next], inps + [inp], env)
    ensures queue' == Dispatch.QueueAfter(plan.graph, Taken(run + [next], |inps| + 1))
  {
    RunGrows(cfg, plan, start, run, inps, env, inp, next);
    QueueGrows(plan, run, |inps|, next, queue, queue');
  }

  lemma RunsAll(cfg: Config, plan: Plan, start: State, run: seq<State>, inps: seq<Inputs>,
                env: seq<Environment>)
    requires |run| == |inps| + 1 && |inps| <= |env| && run[0] == start
    requires forall k :: 0 <= k < |inps| ==> RunsAt(cfg, plan, run, inps, env[k], k)
    ensures RunsUnder(cfg, plan, start, run, inps, env)
  {
    forall k | 0 <= k < |inps|
      ensures TransitionAt(cfg, run, inps, k) && PlannedAt(cfg, plan, run, inps, k) && Matches(inps[k], env[k])
    {
      assert RunsAt(cfg, plan, run, inps, env[k], k);
    }
  }

  /** A prepared device's runs are simulations from power-up: every result about those holds. */
  lemma FromPowerUp(cfg: Config, plan: Plan, n: nat, run: seq<State>, inps: seq<Inputs>,
                    env: seq<Environment>)
    requires Numbered(cfg.specs, n) && RunsUnder(cfg, plan, InitialState(cfg, n), run, inps, env)
    ensures Safety.Simulates(cfg, n, run, inps) && Planned(cfg, plan, run, inps)
  {
  }

  /** The PRC's step, as the composed machine sees it. */
  lemma SteppedPrc(cfg: Config, mid: Core, sig: Signals, inp: Inputs, ok: bool, core: Core)
    requires WellSized(mid) && SignalsFor(mid, sig, inp) && core == mid.(prc := core.prc)
    requires var res := PrcSpec.Step(mid.prc, sig.icapAck, sig.icapTrans, inp.prc);
             ok == res.Some? && (ok ==> core.prc == res.value)
    ensures Stepped(ok, core, StepOne(cfg, mid, sig, inp, 0))
  {
  }

  /** A controller's step, as the composed machine sees it. */
  lemma SteppedAt(cfg: Config, mid: Core, sig: Signals, inp: Inputs, i: nat, ok: bool, core: Core)
    requires WellSized(mid) && SignalsFor(mid, sig, inp) && i < |mid.ctrls| == |core.ctrls|
    requires core.prc == mid.prc && core.icap == mid.icap && core.ctrls == mid.ctrls[i := core.ctrls[i]]
    requires var res := RrcSpec.Step(i, mid.ctrls[i], mid.regions, RrcInputs(sig, inp, i), mid.icap.target,
                                     cfg.simSpeed);
             ok == res.Some? && (ok ==> core.ctrls[i] == res.value.0 && core.regions == res.value.1)
    ensures Stepped(ok, core, StepOne(cfg, mid, sig, inp, i + 2))
  {
  }

  lemma {:induction false} PrefixFails(cfg: Config, s: State, inp: Inputs, order: seq<nat>, k: nat)
    requires CycleReady(s, inp) && InRange(order, |s.core.ctrls|) && k <= |order|
    requires RunOrder(cfg, s.core, s.sig, inp, order[..k]).None?
    ensures RunOrder(cfg, s.core, s.sig, inp, order).None?
    decreases |order|
  {
    if k == |order| {
      assert order[..k] == order;
    } else {
      var init := order[..|order| - 1];
      assert init[..k] == order[..k];
      PrefixFails(cfg, s, inp, init, k);
    }
  }

  /** What the selector finds is a valid request for the task it was asked about. */
  lemma FoundValid(cfg: Config, busy: seq<bool>, lessFlex: (nat, nat) -> bool, lessSpeed: (real, real) -> bool,
                   task: Node, r: Selection)
    requires WellKeyed(cfg.specs) && Selector.Answers(cfg.specs, busy, lessFlex, lessSpeed, task, r) && r.Found?
    ensures task.typeId.Some? && cfg.ValidRequest(Request(r.spec, task.typeId.value))
  {
    var region, id :|
      && Selector.BestRegion(cfg.specs, busy, lessFlex, task.typeId.value, region)
      && Selector.BestModule(cfg.specs, lessSpeed, task.typeId.value, region, id)
      && id in cfg.specs[region] && r.spec == cfg.specs[region][id];
    Selector.FoundImplements(cfg.specs, busy, lessFlex, lessSpeed, task, r);
  }

  lemma PreparedModule(mem: MemoryLevel, specs: SpecMap, r: nat, m: nat)
    requires HoldsModules(mem.table, specs) && Application.Populated(specs) && r in mem.table && m in mem.table[r]
    ensures r in specs && m in specs[r]
    ensures mem.table[r][m].regionId == r && mem.table[r][m].id == m && mem.table[r][m].taskTypes != []
    ensures mem.table[r][m].Value() == NewModule(r, m, specs[r][m].width)
  {
    assert HoldsRegion(mem.table[r], r, specs[r]);
  }

  lemma PreparedEntry(prr: ReconfigurableRegions, regions: set<nat>, r: nat)
    requires HoldsPlaceholders(prr.table, regions) && r in prr.table
    ensures prr.table[r].regionId == r && prr.table[r].taskTypes == [] && prr.table[r].Value() == NewPlaceholder(r)
  {
    var e := prr.table[r];
    assert e.Value() == NewPlaceholder(r);
  }

  lemma PreparedLinked(prr: ReconfigurableRegions, mem: MemoryLevel, specs: SpecMap, n: nat)
    requires HoldsPlaceholders(prr.table, specs.Keys) && HoldsModules(mem.table, specs)
    requires Application.Populated(specs) && forall r :: r in specs <==> 0 <= r < n
    ensures Linked(prr, mem, n)
  {
    forall r | r in prr.table
      ensures prr.table[r].regionId == r
    {
      PreparedEntry(prr, specs.Keys, r);
    }
    forall r, m | r in mem.table && m in mem.table[r]
      ensures mem.table[r][m].regionId == r && mem.table[r][m].id == m
    {
      PreparedModule(mem, specs, r, m);
    }
  }

  lemma RegionFrom(entries: Entries, library: Library, values: map<RrModule, Module>, r: nat, modules: map<nat,
                   ModuleSpec>)
    requires r in entries && r in library && Shared(entries, library) <= values.Keys
    requires values[entries[r]] == NewPlaceholder(r) && library[r].Keys == modules.Keys
    requires forall m :: m in modules ==>
               library[r][m] != entries[r] && values[library[r][m]] == NewModule(r, m, modules[m].width)
    ensures RegionOf(entries, library, values, r) == InitialRegion(r, modules)
  {
    assert RegionOf(entries, library, values, r).library == InitialRegion(r, modules).library;
  }

  lemma PreparedKeys(mem: MemoryLevel, specs: SpecMap, r: nat)
    requires HoldsModules(mem.table, specs) && r in specs
    ensures r in mem.table && mem.table[r].Keys == specs[r].Keys
  {
    assert HoldsRegion(mem.table[r], r, specs[r]);
  }

  lemma PreparedRegion(prr: ReconfigurableRegions, mem: MemoryLevel, specs: SpecMap, r: nat)
    requires HoldsPlaceholders(prr.table, specs.Keys) && HoldsModules(mem.table, specs)
    requires Application.Populated(specs) && r in specs
    ensures r in mem.table
    ensures RegionOf(prr.table, mem.table, Snapshot(prr, mem), r) == InitialRegion(r, specs[r])
  {
    PreparedEntry(prr, specs.Keys, r);
    PreparedKeys(mem, specs, r);
    forall m | m in specs[r]
      ensures mem.table[r][m] != prr.table[r] && mem.table[r][m].Value() == NewModule(r, m, specs[r][m].width)
    {
      PreparedModule(mem, specs, r, m);
    }
    RegionFrom(prr.table, mem.table, Snapshot(prr, mem), r, specs[r]);
  }

  /** The prepared storage is the initial one of the composed machine. */
  lemma PreparedRegions(prr: ReconfigurableRegions, mem: MemoryLevel, specs: SpecMap, n: nat)
    requires HoldsPlaceholders(prr.table, specs.Keys) && HoldsModules(mem.table, specs)
    requires Application.Populated(specs) && forall r :: r in specs <==> 0 <= r < n
    ensures Linked(prr, mem, n)
    ensures forall i :: 0 <= i < n ==> RegionsValue(prr, mem, n)[i] == InitialRegion(i, specs[i])
  {
    PreparedLinked(prr, mem, specs, n);
    forall r | 0 <= r < n
      ensures RegionOf(prr.table, mem.table, Snapshot(prr, mem), r) == InitialRegion(r, specs[r])
    {
      PreparedRegion(prr, mem, specs, r);
    }
  }

  // ---------------------------------------------------------------- the objects

  /** Regions are numbered from 0, as the controllers are. */
  ghost predicate Numbered(specs: SpecMap, n: nat) { forall r :: r in specs <==> 0 <= r < n }

  lemma InitialIs(cfg: Config, n: nat, s: State)
    requires Numbered(cfg.specs, n) && |s.core.regions| == n
    requires s.core.prc == PrcSpec.Initial() && s.core.icap == IcapSpec.Initial(n)
    requires s.core.ctrls == seq(n, i => RrcSpec.Initial())
    requires forall i :: 0 <= i < n ==> s.core.regions[i] == InitialRegion(i, cfg.specs[i])
    requires s.sig == Signals(false, false, false, seq(n, i => false), false, seq(n, i => false))
    requires s.hist == History([], [], [], [], 0)
    ensures s == InitialState(cfg, n)
  {
    assert s.core.regions == InitialState(cfg, n).core.regions;
  }

  method BuildStorage(specs: SpecMap, mainSize: nat, n: nat)
    returns (prr: ReconfigurableRegions, mem: MemoryLevel, fits: bool)
    requires Decoded(specs) && Application.Populated(specs) && Numbered(specs, n)
    ensures Linked(prr, mem, n) && fresh(prr) && fresh(mem) && fresh(Objects(prr, mem))
    ensures forall i :: 0 <= i < n ==> RegionsValue(prr, mem, n)[i] == InitialRegion(i, specs[i])
    ensures fits <==> Answer(mainSize, TotalSize(specs))
  {
    prr := new ReconfigurableRegions();
    mem := new MemoryLevel(mainSize);
    var required, census;
    fits, required, census := PrepareAppResources(specs, prr, mem);
    PreparedRegions(prr, mem, specs, n);
  }

  method BuildControllers(n: nat) returns (ctrls: seq<Components.RrController>)
    ensures |ctrls| == n && forall j :: 0 <= j < n ==> fresh(ctrls[j])
    ensures forall j :: 0 <= j < n ==> ctrls[j].prrId == j && ctrls[j].Value() == RrcSpec.Initial()
  {
    ctrls := [];
    for i := 0 to n
      invariant |ctrls| == i && forall j :: 0 <= j < i ==> fresh(ctrls[j])
      invariant forall j :: 0 <= j < i ==> ctrls[j].prrId == j && ctrls[j].Value() == RrcSpec.Initial()
    {
      var controller := new Components.RrController(i);
      ctrls := ctrls + [controller];
    }
  }

  /** The PRC with its scheduler and selector, and the indexes the selector needs. */
  method BuildPrc(specs: SpecMap, plan: Plan) returns (prc: Components.Prc)
    requires Application.Populated(specs)
    requires PriorityQueue.StrictOrder(plan.lessFlex) && PriorityQueue.StrictOrder(plan.lessSpeed)
    ensures prc.Valid() && prc.Value() == PrcSpec.Initial() && prc.selector.specs == specs
    ensures prc.selector.lessFlex == plan.lessFlex && prc.selector.lessSpeed == plan.lessSpeed
    ensures prc.scheduler.graph == plan.graph && prc.scheduler.taskQueue == plan.graph.starts
    ensures fresh(prc) && fresh(prc.scheduler)
  {
    var caps := Application.GetRrTaskCapabilities(specs);
    var selector := new Selector.LftFeSelector(specs, caps.value, plan.lessFlex, plan.lessSpeed);
    var scheduler := new Scheduler.FcfsScheduler(plan.graph);
    prc := new Components.Prc(scheduler, selector);
  }

  class Device {
    const cfg: Config
    const n: nat
    const prr: ReconfigurableRegions
    const mem: MemoryLevel
    const signals: Components.SignalContext
    const prc: Components.Prc
    const icap: Components.Icap
    const ctrls: seq<Components.RrController>
    ghost var history: History

    /** Every region has its controller, table entry, library and signals. */
    ghost predicate Wired()
      reads prr, mem, signals, icap
    {
      && Linked(prr, mem, n)
      && |signals.prrExecuting| == |signals.icapPrrReq| == |icap.prrCtrlReq| == n
      && |ctrls| == n && forall i :: 0 <= i < n ==> ctrls[i].prrId == i
    }

    /** The PRC's selector works on the specification map of the device. */
    ghost predicate Informed()
      reads prc, prc.scheduler
    {
      WellKeyed(cfg.specs) && Numbered(cfg.specs, n) && prc.Valid() && prc.selector.specs == cfg.specs
    }

    ghost predicate Valid()
      reads prr, mem, signals, prc, prc.scheduler, icap
    {
      Wired() && Informed()
    }

    /** The task graph and the comparators the scheduler and the selector work with. */
    ghost function TheirPlan(): Plan {
      Plan(prc.scheduler.graph, prc.selector.lessFlex, prc.selector.lessSpeed)
    }

    /** Everything a simulation may change. */
    ghost function Repr(): set<object>
      reads prr, mem
    {
      {this, prr, mem, signals, prc, prc.scheduler, icap} + Objects(prr, mem) + set c | c in ctrls
    }

    ghost function CoreValue(): Core
      requires Linked(prr, mem, n)
      reads prr, mem, Objects(prr, mem), prc, icap, ctrls
    {
      Core(prc.Value(), icap.Value(), Components.Values(ctrls), RegionsValue(prr, mem, n))
    }

    ghost function Value(): State
      requires Linked(prr, mem, n)
      reads this, prr, mem, Objects(prr, mem), signals, prc, icap, ctrls
    {
      State(CoreValue(), signals.Value(), history)
    }

    /** Wires up the components. */
    constructor (cfg: Config, n: nat, prr: ReconfigurableRegions, mem: MemoryLevel, prc: Components.Prc,
                 ctrls: seq<Components.RrController>)
      requires WellKeyed(cfg.specs) && Numbered(cfg.specs, n) && Linked(prr, mem, n)
      requires prc.Valid() && prc.selector.specs == cfg.specs
      requires |ctrls| == n && forall j :: 0 <= j < n ==> ctrls[j].prrId == j
      ensures this.cfg == cfg && this.n == n && this.prr == prr && this.mem == mem
      ensures this.prc == prc && this.ctrls == ctrls
      ensures fresh(icap) && fresh(signals)
      ensures Valid() && icap.Value() == IcapSpec.Initial(n) && history == History([], [], [], [], 0)
      ensures signals.Value() == Signals(false, false, false, seq(n, i => false), false, seq(n, i => false))
    {
      this.cfg, this.n, this.prr, this.mem, this.prc, this.ctrls := cfg, n, prr, mem, prc, ctrls;
      icap := new Components.Icap(n);
      signals := new Components.SignalContext(n);
      history := History([], [], [], [], 0);
    }

    method AdvancePrc(installed: bool, targeted: bool) returns (ok: bool, ghost pin: PrcSpec.Inputs)
      requires Valid()
      modifies prc, prc.scheduler`taskQueue
      ensures Valid() && CoreValue() == old(CoreValue()).(prc := prc.Value())
      ensures var r := PrcSpec.Step(old(prc.Value()), signals.icapPrcAck, signals.icapTransfer, pin);
              ok == r.Some? && (ok ==> prc.Value() == r.value)
      ensures pin.installed == installed && pin.targeted == targeted
      ensures pin.next == Scheduler.Front(prc.scheduler.graph, old(prc.scheduler.taskQueue))
      ensures prc.scheduler.taskQueue ==
                if old(prc.state) == PrcSpec.TaskSchedule
                then Scheduler.Dispatched(prc.scheduler.graph, old(prc.scheduler.taskQueue))
                else old(prc.scheduler.taskQueue)
      ensures old(prc.state) == PrcSpec.RrSchedule ==>
                Selector.Answers(cfg.specs, signals.prrExecuting, prc.selector.lessFlex, prc.selector.lessSpeed,
                                 old(prc.scheduledTask), pin.selection)
    {
      ghost var core, objects := CoreValue(), Objects(prr, mem);
      ok, pin := prc.Step(signals, installed, targeted);
      assert Objects(prr, mem) == objects;
      assert RegionsValue(prr, mem, n) == core.regions;
    }

    method StepPrc(installed: bool, targeted: bool, ghost ready: bool, ghost enqueue: seq<Option<Node>>)
      returns (ok: bool, ghost inp: Inputs)
      requires Valid() && |enqueue| == n
      modifies prc, prc.scheduler`taskQueue
      ensures Valid() && inp.ready == ready && inp.enqueue == enqueue
      ensures inp.prc.installed == installed && inp.prc.targeted == targeted
      ensures inp.prc.next == Scheduler.Front(prc.scheduler.graph, old(prc.scheduler.taskQueue))
      ensures prc.scheduler.taskQueue ==
                if Takes(old(Value())) then Scheduler.Dispatched(prc.scheduler.graph, old(prc.scheduler.taskQueue))
                else old(prc.scheduler.taskQueue)
      ensures ValidInputs(cfg, old(Value()), inp) && Chosen(cfg, TheirPlan(), old(Value()), inp)
      ensures Stepped(ok, CoreValue(), StepOne(cfg, old(CoreValue()), signals.Value(), inp, 0))
    {
      ghost var task, core := prc.scheduledTask, CoreValue();
      ghost var pin: PrcSpec.Inputs;
      ok, pin := AdvancePrc(installed, targeted);
      inp := Inputs(pin, ready, enqueue);
      SteppedPrc(cfg, core, signals.Value(), inp, ok, CoreValue());
      if old(prc.state) == PrcSpec.RrSchedule && inp.prc.selection.Found? {
        FoundValid(cfg, signals.prrExecuting, prc.selector.lessFlex, prc.selector.lessSpeed, task, inp.prc.selection);
      }
    }

    /** Midway through a cycle that began in `before`: the first `k` components have stepped. */
    ghost predicate Midway(before: State, inp: Inputs, k: nat)
      reads prr, mem, Objects(prr, mem), signals, prc, icap, ctrls
    {
      && Wired() && Reached(cfg, before, inp, k, CoreValue())
      && |before.core.ctrls| == n && before.sig == signals.Value()
    }

    /** Midway still, or stopped by a fault. */
    ghost predicate Staged(ok: bool, before: State, inp: Inputs, k: nat)
      reads prr, mem, Objects(prr, mem), signals, prc, icap, ctrls
    {
      Wired() && if ok then Midway(before, inp, k) else NoCycle(cfg, before, inp)
    }

    method StepIcap(ready: bool, ghost before: State, ghost inp: Inputs) returns (ok: bool)
      requires Midway(before, inp, 1) && inp.ready == ready
      modifies icap
      ensures Staged(ok, before, inp, 2)
    {
      ghost var mid := CoreValue();
      ok := icap.Step(cfg, signals, prc, ready);
      assert Stepped(ok, CoreValue(), StepOne(cfg, mid, before.sig, inp, 1));
      ReachedNext(cfg, before, inp, 1, mid, ok, CoreValue());
    }

    method AdvanceController(i: nat, enqueue: Option<Node>, ghost inp: Inputs) returns (ok: bool)
      requires Wired() && i < n == |inp.enqueue| && inp.enqueue[i] == enqueue
      modifies ctrls[i], prr, Objects(prr, mem)
      ensures Wired() && Objects(prr, mem) <= old(Objects(prr, mem))
      ensures Stepped(ok, CoreValue(), StepOne(cfg, old(CoreValue()), signals.Value(), inp, i + 2))
    {
      ghost var mid := CoreValue();
      ok := ctrls[i].Step(signals, enqueue, icap, prr, mem, n, cfg.simSpeed);
      forall j | 0 <= j < n && j != i
        ensures ctrls[j].Value() == mid.ctrls[j]
      {
        assert ctrls[j].prrId != ctrls[i].prrId;
      }
      SteppedAt(cfg, mid, signals.Value(), inp, i, ok, CoreValue());
    }

    method StepController(i: nat, enqueue: Option<Node>, ghost before: State, ghost inp: Inputs) returns (ok: bool)
      requires i < n && Midway(before, inp, i + 2) && inp.enqueue[i] == enqueue
      modifies ctrls[i], prr, Objects(prr, mem)
      ensures Objects(prr, mem) <= old(Objects(prr, mem))
      ensures Staged(ok, before, inp, i + 3)
    {
      ghost var mid := CoreValue();
      ok := AdvanceController(i, enqueue, inp);
      ReachedNext(cfg, before, inp, i + 2, mid, ok, CoreValue());
    }

    method StepControllers(enqueue: seq<Option<Node>>, ghost before: State, ghost inp: Inputs) returns (ok: bool)
      requires Midway(before, inp, 2) && inp.enqueue == enqueue
      modifies ctrls, prr, Objects(prr, mem)
      ensures Objects(prr, mem) <= old(Objects(prr, mem))
      ensures Staged(ok, before, inp, n + 2)
    {
      ok := true;
      ghost var objects := Objects(prr, mem);
      var i := 0;
      while ok && i < n
        invariant i <= n && Objects(prr, mem) <= objects
        invariant Staged(ok, before, inp, i + 2)
      {
        ok := StepController(i, enqueue[i], before, inp);
        i := i + 1;
      }
    }

    method Refresh()
      requires Wired()
      modifies signals
      ensures Wired() && CoreValue() == old(CoreValue()) && signals.Value() == Latch(CoreValue())
    {
      ghost var core, objects := CoreValue(), Objects(prr, mem);
      signals.RefreshContext(prc, icap, ctrls, core.regions);
      assert Objects(prr, mem) == objects;
      assert RegionsValue(prr, mem, n) == core.regions;
    }

    /** Publishes all signals, and records in the histories what the cycle did. */
    method Publish(ghost before: State, ghost inp: Inputs)
      requires Midway(before, inp, n + 2)
      modifies signals, this`history
      ensures Wired() && Cycle(cfg, before, inp) == Some(Value())
    {
      ghost var core := CoreValue();
      ReachedAll(cfg, before, inp, core);
      Refresh();
      Log(Record(before.hist, before.core, core));
    }

    ghost method Log(h: History)
      requires Wired()
      modifies this`history
      ensures Wired() && history == h && CoreValue() == old(CoreValue())
    {
      var core, objects := CoreValue(), Objects(prr, mem);
      history := h;
      assert Objects(prr, mem) == objects;
      assert RegionsValue(prr, mem, n) == core.regions;
    }

    /** The rest of a cycle after the PRC's step. */
    method StepOthers(ready: bool, enqueue: seq<Option<Node>>, ghost before: State, ghost inp: Inputs)
      returns (ok: bool)
      requires Midway(before, inp, 1) && inp.ready == ready && inp.enqueue == enqueue
      modifies this`history, icap, ctrls, prr, Objects(prr, mem), signals
      ensures Wired() && Objects(prr, mem) <= old(Objects(prr, mem))
      ensures var r := Cycle(cfg, before, inp); ok == r.Some? && (ok ==> Value() == r.value)
    {
      ok := StepIcap(ready, before, inp);
      if ok {
        ok := StepControllers(enqueue, before, inp);
      }
      if ok {
        Publish(before, inp);
      }
    }

    /** One iteration of the simulation loop. It is the composed machine's cycle, under inputs the
        scheduler and the selector produce; false when a component faults. */
    method SimulateCycle(e: Environment) returns (ok: bool, ghost inp: Inputs)
      requires Valid() && |e.enqueue| == n
      modifies this`history, prc, prc.scheduler`taskQueue, icap, ctrls, prr, Objects(prr, mem), signals
      ensures Valid() && Objects(prr, mem) <= old(Objects(prr, mem))
      ensures Driven(cfg, TheirPlan(), old(Value()), inp, e, old(prc.scheduler.taskQueue), prc.scheduler.taskQueue)
      ensures var r := Cycle(cfg, old(Value()), inp); ok == r.Some? && (ok ==> Value() == r.value)
    {
      ghost var before := Value();
      ok, inp := StepPrc(e.installed, e.targeted, e.ready, e.enqueue);
      ReachedNext(cfg, before, inp, 0, before.core, ok, CoreValue());
      if ok {
        ok := StepOthers(e.ready, e.enqueue, before, inp);
      }
    }

    /** `ccc` cycles into a simulation that began in `start`. */
    ghost predicate Ran(start: State, run: seq<State>, inps: seq<Inputs>, env: seq<Environment>, ccc: nat)
      reads this, prr, mem, Objects(prr, mem), signals, prc, prc.scheduler, icap, ctrls
    {
      && Valid() && RunsUnder(cfg, TheirPlan(), start, run, inps, env)
      && |inps| == ccc && run[ccc] == Value()
      && prc.scheduler.taskQueue == Dispatch.QueueAfter(prc.scheduler.graph, Taken(run, ccc))
    }

    /** Running still, or ended before cycle `ccc` by a fault. */
    ghost predicate Stands(ok: bool, start: State, run: seq<State>, inps: seq<Inputs>, env: seq<Environment>, ccc: nat)
      reads this, prr, mem, Objects(prr, mem), signals, prc, prc.scheduler, icap, ctrls
    {
      if ok then Ran(start, run, inps, env, ccc)
      else
        && Valid() && RunsUnder(cfg, TheirPlan(), start, run, inps, env)
        && |inps| == ccc < |env| && FaultsNext(cfg, run, inps, env[ccc])
    }

    /** One iteration, appended to the run so far. */
    method Iterate(env: seq<Environment>, ccc: nat, ghost start: State, ghost run: seq<State>, ghost inps: seq<Inputs>)
      returns (ok: bool, ghost run': seq<State>, ghost inps': seq<Inputs>)
      requires Ran(start, run, inps, env, ccc) && ccc < |env| && |env[ccc].enqueue| == n
      modifies this`history, prc, prc.scheduler`taskQueue, icap, ctrls, prr, Objects(prr, mem), signals
      ensures Objects(prr, mem) <= old(Objects(prr, mem))
      ensures Stands(ok, start, run', inps', env, if ok then ccc + 1 else ccc)
    {
      ghost var queue := prc.scheduler.taskQueue;
      ghost var inp: Inputs;
      ok, inp := SimulateCycle(env[ccc]);
      run', inps' := run, inps;
      if ok {
        BothGrow(cfg, TheirPlan(), start, run, inps, env, inp, Value(), queue, prc.scheduler.taskQueue);
        run', inps' := run + [Value()], inps + [inp];
      } else {
        FaultEnds(cfg, TheirPlan(), run, inps, env[ccc], inp, queue, prc.scheduler.taskQueue);
      }
    }

    /** The simulation loop: `stop` cycles, but never more than 1000. Its states are a run of the
        composed machine; it ends early only when the next cycle faults. */
    method SimulateApplication(stop: nat, env: seq<Environment>)
      returns (ok: bool, ghost run: seq<State>, ghost inps: seq<Inputs>)
      requires prc.scheduler.taskQueue == prc.scheduler.graph.starts
      requires Valid() && |env| == Cycles(stop) && forall k :: 0 <= k < |env| ==> |env[k].enqueue| == n
      modifies Repr()
      ensures Valid() && RunsUnder(cfg, TheirPlan(), old(Value()), run, inps, env)
      ensures ok ==> |inps| == (if stop < 1000 then stop else 1000) && Value() == run[|inps|]
      ensures !ok ==> |inps| < (if stop < 1000 then stop else 1000) && FaultsNext(cfg, run, inps, env[|inps|])
    {
      ghost var start := Value();
      ok, run, inps := true, [start], [];
      RunsStart(cfg, TheirPlan(), start, env);
      var ccc, limit := 0, false;
      while ok && !limit && ccc < stop
        invariant ccc <= Cycles(stop) && (limit <==> ccc == 1000) && (!ok ==> ccc < Cycles(stop))
        invariant Objects(prr, mem) <= old(Objects(prr, mem))
        invariant Stands(ok, start, run, inps, env, ccc)
        decreases stop - ccc, ok
      {
        ok, run, inps := Iterate(env, ccc, start, run, inps);
        if ok {
          ccc := ccc + 1;
          limit := ccc == 1000;
        }
      }
    }
  }

  /** A device of components in their initial states. */
  method Assemble(cfg: Config, n: nat, prr: ReconfigurableRegions, mem: MemoryLevel, prc: Components.Prc,
                  ctrls: seq<Components.RrController>) returns (d: Device)
    requires WellKeyed(cfg.specs) && Numbered(cfg.specs, n) && Linked(prr, mem, n)
    requires prc.Valid() && prc.selector.specs == cfg.specs && prc.Value() == PrcSpec.Initial() && |ctrls| == n
    requires forall j :: 0 <= j < n ==> ctrls[j].prrId == j && ctrls[j].Value() == RrcSpec.Initial()
    requires forall i :: 0 <= i < n ==> RegionsValue(prr, mem, n)[i] == InitialRegion(i, cfg.specs[i])
    ensures d.cfg == cfg && d.n == n && d.prr == prr && d.mem == mem && d.prc == prc && d.ctrls == ctrls
    ensures fresh(d) && fresh(d.icap) && fresh(d.signals)
    ensures d.Valid() && d.Value() == InitialState(cfg, n)
  {
    ghost var values, objects := Snapshot(prr, mem), Objects(prr, mem);
    d := new Device(cfg, n, prr, mem, prc, ctrls);
    assert Objects(prr, mem) == objects;
    assert Snapshot(prr, mem) == values;
    assert d.CoreValue().ctrls == seq(n, i => RrcSpec.Initial());
    InitialIs(cfg, n, d.Value());
  }

  twostate lemma ReprFresh(new d: Device)
    requires fresh(d) && fresh(d.prr) && fresh(d.mem) && fresh(d.signals) && fresh(d.prc) && fresh(d.prc.scheduler)
    requires fresh(d.icap) && fresh(Objects(d.prr, d.mem)) && forall c :: c in d.ctrls ==> fresh(c)
    ensures fresh(d.Repr())
  {
  }

  /** Prepares a device for an application: main memory, region table, indexes and components.
      The answer is whether the bitstream library fits main memory, as the source compares them. */
  method Prepare(specs: SpecMap, plan: Plan, n: nat, icapSpeed: Speed, busWidth: nat, simSpeed: Speed, mainSize: nat)
    returns (d: Device, fits: bool)
    requires Decoded(specs) && Application.Populated(specs) && Numbered(specs, n)
    requires PriorityQueue.StrictOrder(plan.lessFlex) && PriorityQueue.StrictOrder(plan.lessSpeed)
    ensures fits <==> Answer(mainSize, TotalSize(specs))
    ensures d.cfg.specs == specs && d.n == n && d.cfg.widths.Keys == specs.Keys
    ensures d.cfg.icapSpeed == icapSpeed && d.cfg.busWidth == busWidth && d.cfg.simSpeed == simSpeed
    ensures forall q :: q in specs ==> exists m :: m in specs[q] && d.cfg.widths[q] == specs[q][m].width
    ensures d.Valid() && d.Value() == InitialState(d.cfg, n)
    ensures d.TheirPlan() == plan && d.prc.scheduler.taskQueue == plan.graph.starts
    ensures fresh(d.Repr())
  {
    var sizes := Application.GetRrBitstreamSizes(specs);
    var prc := BuildPrc(specs, plan);
    var ctrls := BuildControllers(n);
    var prr, mem;
    prr, mem, fits := BuildStorage(specs, mainSize, n);
    d := Assemble(Config(specs, sizes.value, icapSpeed, busWidth, simSpeed), n, prr, mem, prc, ctrls);
    ReprFresh(d);
  }

  /** Prepares a device and, if the application fits, simulates it: whatever the environment does,
      the transfers are delivered in order and every region receives at most one bitstream. */
  method Simulate(specs: SpecMap, plan: Plan, n: nat, icapSpeed: Speed, busWidth: nat, simSpeed: Speed, mainSize: nat,
                  stop: nat, env: seq<Environment>)
    returns (d: Device, fits: bool, ok: bool, ghost run: seq<State>, ghost inps: seq<Inputs>)
    requires Decoded(specs) && Application.Populated(specs) && Numbered(specs, n)
    requires PriorityQueue.StrictOrder(plan.lessFlex) && PriorityQueue.StrictOrder(plan.lessSpeed)
    requires |env| == Cycles(stop) && forall k :: 0 <= k < |env| ==> |env[k].enqueue| == n
    ensures fits <==> Answer(mainSize, TotalSize(specs))
    ensures !fits ==> !ok && inps == []
    ensures d.cfg.specs == specs && Safety.Simulates(d.cfg, n, run, inps) && Planned(d.cfg, plan, run, inps)
    ensures forall k :: 0 <= k < |run| ==> Safety.InOrder(d.cfg, run[k].hist) && |run[k].hist.installed| <= n
    ensures d.Valid() && d.n == n && (ok ==> |inps| == (if stop < 1000 then stop else 1000) && d.Value() == run[|inps|])
    ensures fits && !ok ==> |inps| < (if stop < 1000 then stop else 1000) && FaultsNext(d.cfg, run, inps, env[|inps|])
  {
    d, fits := Prepare(specs, plan, n, icapSpeed, busWidth, simSpeed, mainSize);
    if fits {
      ok, run, inps := d.SimulateApplication(stop, env);
    } else {
      ok, run, inps := false, [d.Value()], [];
      RunsStart(d.cfg, plan, d.Value(), env);
    }
    FromPowerUp(d.cfg, plan, n, run, inps, env);
    SimulatedSafely(d.cfg, n, run, inps);
  }

  lemma SimulatedSafely(cfg: Config, n: nat, run: seq<State>, inps: seq<Inputs>)
    requires Safety.Simulates(cfg, n, run, inps)
    ensures forall k :: 0 <= k < |run| ==> Safety.InOrder(cfg, run[k].hist) && |run[k].hist.installed| <= n
  {
    forall k | 0 <= k < |run|
      ensures Safety.InOrder(cfg, run[k].hist) && |run[k].hist.installed| <= n
    {
      Safety.Delivery(cfg, n, run, inps, k);
      Safety.OncePerRegion(cfg, n, run, inps, k);
    }
  }
}

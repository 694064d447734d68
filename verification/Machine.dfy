/** The composed machine: one clock cycle steps every component against the latched signals,
    in some order, and then publishes all outputs at once. */
module Machine {
  import opened Types
  import opened Modules
  import opened Configuration
  import PrcSpec
  import IcapSpec
  import RrcSpec

  /** Everything the components own. */
  datatype Core = Core(
    prc: PrcSpec.Prc, icap: IcapSpec.Icap, ctrls: seq<RrcSpec.Rrc>, regions: seq<Region>)

  /** The signal context's stored copies; `prrAck` is the OR of all controllers' ICAP acks. */
  datatype Signals = Signals(
    prcReq: bool, icapAck: bool, icapTrans: bool, icapReq: seq<bool>, prrAck: bool, executing: seq<bool>)

  /** What a cycle takes from outside: the PRC's choices, the readiness guard's outcome, and for
      every controller the task on its enqueue line, if that line is high. */
  datatype Inputs = Inputs(prc: PrcSpec.Inputs, ready: bool, enqueue: seq<Option<Node>>)

  /** A transfer whose countdown is over, with the number of cycles the ICAP spent on it. */
  datatype Finished = Finished(request: Request, cycles: nat)

  datatype History = History(
    requested: seq<Request>, latched: seq<Request>, finished: seq<Finished>, installed: seq<Request>,
    spent: nat)

  datatype State = State(core: Core, sig: Signals, hist: History)

  predicate WellSized(core: Core) {
    |core.icap.prrReq| == |core.ctrls| == |core.regions|
  }

  predicate SignalsFor(core: Core, sig: Signals, inp: Inputs) {
    |sig.icapReq| == |core.ctrls| == |inp.enqueue|
  }

  function Latch(core: Core): Signals {
    Signals(core.prc.req, core.icap.prcAck, core.icap.transferring, core.icap.prrReq,
            exists i :: 0 <= i < |core.ctrls| && core.ctrls[i].icapAck,
            seq(|core.ctrls|, i requires 0 <= i < |core.ctrls| => core.ctrls[i].executing))
  }

  function RrcInputs(sig: Signals, inp: Inputs, i: nat): RrcSpec.Inputs
    requires i < |sig.icapReq| && i < |inp.enqueue|
  {
    RrcSpec.Inputs(inp.enqueue[i], sig.icapReq[i], sig.icapTrans)
  }

  /** Steps component 0 (the PRC), 1 (the ICAP) or 2 + i (controller i) in the middle of a cycle.
      The two bitstream wires read their owner's value of that moment. */
  function StepOne(cfg: Config, core: Core, sig: Signals, inp: Inputs, id: nat): (r: Option<Core>)
    requires WellSized(core) && SignalsFor(core, sig, inp) && id < |core.ctrls| + 2
    ensures r.Some? ==> WellSized(r.value) && |r.value.ctrls| == |core.ctrls|
  {
    if id == 0 then
      match PrcSpec.Step(core.prc, sig.icapAck, sig.icapTrans, inp.prc)
      case None => None
      case Some(prc) => Some(core.(prc := prc))
    else if id == 1 then
      match IcapSpec.Step(cfg, core.icap, sig.prcReq, sig.prrAck, inp.ready, core.prc.scheduled)
      case None => None
      case Some(icap) => Some(core.(icap := icap))
    else
      var i := id - 2;
      match RrcSpec.Step(i, core.ctrls[i], core.regions, RrcInputs(sig, inp, i), core.icap.target, cfg.simSpeed)
      case None => None
      case Some((c, regions)) => Some(core.(ctrls := core.ctrls[i := c], regions := regions))
  }

  predicate InRange(order: seq<nat>, n: nat) {
    forall k :: 0 <= k < |order| ==> order[k] < n + 2
  }

  function RunOrder(cfg: Config, core: Core, sig: Signals, inp: Inputs, order: seq<nat>): (r: Option<Core>)
    requires WellSized(core) && SignalsFor(core, sig, inp)
    requires InRange(order, |core.ctrls|)
    ensures r.Some? ==> WellSized(r.value) && |r.value.ctrls| == |core.ctrls|
    decreases |order|
  {
    if order == [] then Some(core)
    else
      match RunOrder(cfg, core, sig, inp, order[..|order| - 1])
      case None => None
      case Some(mid) => StepOne(cfg, mid, sig, inp, order[|order| - 1])
  }

  /** The order of the simulation loop: PRC, ICAP, then the controllers by index. */
  function SourceOrder(n: nat): seq<nat> { seq(n + 2, k => k) }

  /** Requests installed by controllers 0..n in one cycle, in stepping order. */
  function Installs(before: seq<RrcSpec.Rrc>, after: seq<RrcSpec.Rrc>, n: nat): seq<Request>
    requires n <= |before| == |after|
  {
    if n == 0 then []
    else Installs(before, after, n - 1) +
         (if before[n - 1].st == RrcSpec.Transfer && after[n - 1].st == RrcSpec.Idle
          then [after[n - 1].installed] else [])
  }

  function Record(h: History, a: Core, b: Core): History
    requires |a.ctrls| == |b.ctrls|
  {
    History(
      if a.prc.st == PrcSpec.RrSchedule && b.prc.st == PrcSpec.ReqIcap
      then h.requested + [b.prc.scheduled] else h.requested,
      if a.icap.st == IcapSpec.Ack && b.icap.st == IcapSpec.Wait && b.icap.target.Some?
      then h.latched + [b.icap.target.value] else h.latched,
      if a.icap.st == IcapSpec.Transfer && b.icap.st == IcapSpec.Idle && a.icap.target.Some?
      then h.finished + [Finished(a.icap.target.value, h.spent + 1)] else h.finished,
      h.installed + Installs(a.ctrls, b.ctrls, |a.ctrls|),
      if a.icap.st == IcapSpec.Transfer then h.spent + 1 else 0)
  }

  predicate CycleReady(s: State, inp: Inputs) {
    WellSized(s.core) && SignalsFor(s.core, s.sig, inp)
  }

  /** One simulated clock cycle; None when a component faults. */
  function Cycle(cfg: Config, s: State, inp: Inputs): Option<State>
    requires CycleReady(s, inp)
  {
    match RunOrder(cfg, s.core, s.sig, inp, SourceOrder(|s.core.ctrls|))
    case None => None
    case Some(core) => Some(State(core, Latch(core), Record(s.hist, s.core, core)))
  }

  function InitialRegion(i: nat, specs: map<nat, ModuleSpec>): Region {
    Region(Placeholder(NewPlaceholder(i)), map m | m in specs :: NewModule(i, m, specs[m].width))
  }

  function InitialState(cfg: Config, n: nat): State
    requires forall i :: 0 <= i < n ==> i in cfg.specs
  {
    State(
      Core(PrcSpec.Initial(), IcapSpec.Initial(n), seq(n, i => RrcSpec.Initial()),
           seq(n, i requires 0 <= i < n => InitialRegion(i, cfg.specs[i]))),
      Signals(false, false, false, seq(n, i => false), false, seq(n, i => false)),
      History([], [], [], [], 0))
  }

  /** Inputs the other parts of the simulator can produce: a bitstream is chosen only for a task
      with a type, and is a valid one for that type. */
  ghost predicate ValidInputs(cfg: Config, s: State, inp: Inputs) {
    && SignalsFor(s.core, s.sig, inp)
    && (s.core.prc.st == PrcSpec.RrSchedule && inp.prc.selection.Found? ==>
          && s.core.prc.task.typeId.Some?
          && cfg.ValidRequest(Request(inp.prc.selection.spec, s.core.prc.task.typeId.value))
          && inp.prc.selection.spec.regionId < |s.core.ctrls|)
  }

  /** A fault-free cycle from `s` to `t`. */
  ghost predicate Transition(cfg: Config, s: State, inp: Inputs, t: State) {
    CycleReady(s, inp) && ValidInputs(cfg, s, inp) && Cycle(cfg, s, inp) == Some(t)
  }

  ghost predicate TransitionAt(cfg: Config, run: seq<State>, inps: seq<Inputs>, k: nat)
    requires k < |inps| < |run|
  {
    Transition(cfg, run[k], inps[k], run[k + 1])
  }

  /** States `run[0]`, `run[1]`, ... under inputs `inps[0]`, ..., with no fault on the way. */
  ghost predicate IsRun(cfg: Config, run: seq<State>, inps: seq<Inputs>) {
    |run| == |inps| + 1 && forall k :: 0 <= k < |inps| ==> TransitionAt(cfg, run, inps, k)
  }
}

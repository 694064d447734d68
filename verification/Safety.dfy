/** The main results about every run of the composed machine, for any number of regions. */
module Safety {
  import opened Types
  import opened Modules
  import opened Configuration
  import opened Machine
  import opened Protocol
  import opened Preservation
  import opened Ledger
  import PrcSpec
  import IcapSpec
  import RrcSpec

  ghost predicate Reachable(cfg: Config, s: State) { Links(cfg, s) && Balanced(cfg, s) }

  lemma InitialReachable(cfg: Config, n: nat)
    requires forall i :: 0 <= i < n ==> i in cfg.specs
    ensures Reachable(cfg, InitialState(cfg, n))
  {
    var s := InitialState(cfg, n);
    assert s.sig == Latch(s.core);
    assert Requests([]) == [];
  }

  lemma CycleReachable(cfg: Config, s: State, inp: Inputs)
    requires Reachable(cfg, s) && ValidInputs(cfg, s, inp) && CycleReady(s, inp)
    ensures Cycle(cfg, s, inp).Some? ==>
              Advances(cfg, s, inp, Cycle(cfg, s, inp).value) && Reachable(cfg, Cycle(cfg, s, inp).value)
  {
    CycleAdvances(cfg, s, inp);
    if Cycle(cfg, s, inp).Some? {
      KeepsLinks(cfg, s, inp, Cycle(cfg, s, inp).value);
      KeepsBalanced(cfg, s, inp, Cycle(cfg, s, inp).value);
    }
  }

  lemma CycleTurns(cfg: Config, s: State, inp: Inputs)
    requires Reachable(cfg, s) && ValidInputs(cfg, s, inp) && CycleReady(s, inp)
    ensures Cycle(cfg, s, inp).Some? ==>
              Turns(cfg, s, inp, Cycle(cfg, s, inp).value) && Reachable(cfg, Cycle(cfg, s, inp).value)
  {
    CycleReachable(cfg, s, inp);
    if Cycle(cfg, s, inp).Some? {
      AdvancesTurns(cfg, s, inp, Cycle(cfg, s, inp).value);
    }
  }

  /** A run from a reachable state visits reachable states only. */
  lemma {:induction false} RunReachable(cfg: Config, run: seq<State>, inps: seq<Inputs>, k: nat)
    requires IsRun(cfg, run, inps) && Reachable(cfg, run[0]) && k < |run|
    ensures Reachable(cfg, run[k])
    ensures k > 0 ==> Reachable(cfg, run[k - 1]) && ValidInputs(cfg, run[k - 1], inps[k - 1])
    ensures k > 0 ==> Advances(cfg, run[k - 1], inps[k - 1], run[k]) && Turns(cfg, run[k - 1], inps[k - 1], run[k])
    ensures |run[k].core.ctrls| == |run[0].core.ctrls|
  {
    if k > 0 {
      RunReachable(cfg, run, inps, k - 1);
      assert TransitionAt(cfg, run, inps, k - 1);
      CycleReachable(cfg, run[k - 1], inps[k - 1]);
      CycleTurns(cfg, run[k - 1], inps[k - 1]);
    }
  }

  /** One cycle of a run, without its histories, ... */
  lemma RunSteps(cfg: Config, run: seq<State>, inps: seq<Inputs>, k: nat)
    requires IsRun(cfg, run, inps) && Reachable(cfg, run[0]) && k < |inps|
    ensures Links(cfg, run[k]) && ValidInputs(cfg, run[k], inps[k])
    ensures Advances(cfg, run[k], inps[k], run[k + 1]) && Turns(cfg, run[k], inps[k], run[k + 1])
  {
    RunReachable(cfg, run, inps, k + 1);
  }

  /** ... and its control part alone. */
  lemma RunTurns(cfg: Config, run: seq<State>, inps: seq<Inputs>, k: nat)
    requires IsRun(cfg, run, inps) && Reachable(cfg, run[0]) && k < |inps|
    ensures Control(cfg, run[k]) && SignalsFor(run[k].core, run[k].sig, inps[k])
    ensures Control(cfg, run[k + 1]) && Turns(cfg, run[k], inps[k], run[k + 1])
  {
    RunReachable(cfg, run, inps, k + 1);
  }

  /** Runs of the simulator: from power-up, with `n` regions. */
  ghost predicate Simulates(cfg: Config, n: nat, run: seq<State>, inps: seq<Inputs>) {
    && (forall i :: 0 <= i < n ==> i in cfg.specs)
    && IsRun(cfg, run, inps) && run[0] == InitialState(cfg, n)
  }

  lemma SimulationReachable(cfg: Config, n: nat, run: seq<State>, inps: seq<Inputs>, k: nat)
    requires Simulates(cfg, n, run, inps) && k < |run|
    ensures Reachable(cfg, run[k]) && |run[k].core.ctrls| == n
  {
    InitialReachable(cfg, n);
    RunReachable(cfg, run, inps, k);
  }

  lemma SimulationTurns(cfg: Config, n: nat, run: seq<State>, inps: seq<Inputs>, k: nat)
    requires Simulates(cfg, n, run, inps) && 0 < k < |run|
    ensures Control(cfg, run[k - 1]) && Control(cfg, run[k])
    ensures SignalsFor(run[k - 1].core, run[k - 1].sig, inps[k - 1]) && Turns(cfg, run[k - 1], inps[k - 1], run[k])
  {
    InitialReachable(cfg, n);
    RunReachable(cfg, run, inps, k);
  }

  /** No transfer is lost, duplicated or reordered, and every stage lags the one before it by at
      most one; every countdown lasted exactly one cycle more than the computed latency. */
  predicate InOrder(cfg: Config, h: History) {
    && h.installed <= Requests(h.finished) <= h.latched <= h.requested
    && |h.requested| <= |h.latched| + 1 && |h.latched| <= |h.installed| + 1
    && forall j :: 0 <= j < |h.finished| ==>
         h.finished[j].cycles == cfg.TransferLatency(h.finished[j].request.bs.regionId) + 1
  }

  lemma Delivery(cfg: Config, n: nat, run: seq<State>, inps: seq<Inputs>, k: nat)
    requires Simulates(cfg, n, run, inps) && k < |run|
    ensures InOrder(cfg, run[k].hist)
  {
    SimulationReachable(cfg, n, run, inps, k);
  }

  /** At most one controller is receiving a transfer, and only the region the ICAP last addressed
      drives the acknowledge bus. */
  lemma Exclusive(cfg: Config, n: nat, run: seq<State>, inps: seq<Inputs>, k: nat, i: nat, j: nat)
    requires Simulates(cfg, n, run, inps) && k < |run| && i < n && j < n
    ensures |run[k].core.ctrls| == n
    ensures var core := run[k].core;
            && (core.ctrls[i].st == core.ctrls[j].st == RrcSpec.State.Transfer ==> i == j)
            && (core.ctrls[i].icapAck ==> IsTarget(core, i))
            && (run[k].sig.prrAck <==> (exists r :: 0 <= r < n && IsTarget(core, r) && core.ctrls[r].icapAck))
  {
    SimulationReachable(cfg, n, run, inps, k);
    assert IcapRrc(cfg, run[k].core, i) && IcapRrc(cfg, run[k].core, j);
    BusFromTarget(cfg, run[k]);
    if run[k].sig.prrAck {
      assert IsTarget(run[k].core, run[k].core.icap.target.value.bs.regionId);
    }
  }

  /** Controller `i` is in its transfer state from the cycle after `a` up to and including `b`. */
  ghost predicate Receiving(run: seq<State>, i: nat, a: nat, b: nat) {
    && a < b < |run|
    && (forall m :: a <= m <= b ==> i < |run[m].core.ctrls|)
    && run[a].core.ctrls[i].st == RrcSpec.State.Idle
    && (forall m :: a < m <= b ==> run[m].core.ctrls[i].st == RrcSpec.State.Transfer)
  }

  /** The wire shows the request that controller `i` accepted, for its own region, and did so one
      cycle before. */
  predicate Kept(s: State, t: State, i: nat)
    requires i < |t.core.ctrls|
  {
    && t.core.icap.target == s.core.icap.target == Some(t.core.ctrls[i].transferReq)
    && t.core.ctrls[i].transferReq.bs.regionId == i
  }

  lemma RequestKept(cfg: Config, s: State, inp: Inputs, t: State, i: nat)
    requires Control(cfg, s) && Control(cfg, t) && SignalsFor(s.core, s.sig, inp) && Turns(cfg, s, inp, t)
    requires i < |t.core.ctrls| && t.core.ctrls[i].st == RrcSpec.State.Transfer
    ensures Kept(s, t, i)
  {
    assert IcapRrc(cfg, s.core, i) && IcapRrc(cfg, t.core, i);
    assert RrcSpec.Moves(s.core.ctrls[i], RrcInputs(s.sig, inp, i), s.core.icap.target, t.core.ctrls[i]);
  }

  lemma RequestKeptAt(cfg: Config, n: nat, run: seq<State>, inps: seq<Inputs>, i: nat, k: nat)
    requires Simulates(cfg, n, run, inps) && 0 < k < |run|
    requires i < |run[k].core.ctrls| && run[k].core.ctrls[i].st == RrcSpec.State.Transfer
    ensures Kept(run[k - 1], run[k], i)
  {
    SimulationTurns(cfg, n, run, inps, k);
    RequestKept(cfg, run[k - 1], inps[k - 1], run[k], i);
  }

  lemma {:induction false} KeptThroughout(run: seq<State>, i: nat, a: nat, b: nat)
    requires a < b < |run| && forall k :: a < k <= b ==> i < |run[k].core.ctrls| && Kept(run[k - 1], run[k], i)
    ensures run[b].core.icap.target == run[a].core.icap.target == Some(run[b].core.ctrls[i].transferReq)
  {
    assert Kept(run[b - 1], run[b], i);
    if b - 1 > a {
      KeptThroughout(run, i, a, b - 1);
    }
  }

  /** The transfer wire shows a controller the same request, for its own region, when it accepts
      the transfer and when it completes it. */
  lemma SameRequest(cfg: Config, n: nat, run: seq<State>, inps: seq<Inputs>, i: nat, a: nat, b: nat)
    requires Simulates(cfg, n, run, inps) && Receiving(run, i, a, b)
    ensures run[a].core.icap.target == Some(run[b].core.ctrls[i].transferReq)
    ensures run[b].core.icap.target == run[a].core.icap.target
    ensures run[b].core.ctrls[i].transferReq.bs.regionId == i
  {
    forall k | a < k <= b
      ensures Kept(run[k - 1], run[k], i)
    {
      RequestKeptAt(cfg, n, run, inps, i, k);
    }
    KeptThroughout(run, i, a, b);
    assert Kept(run[b - 1], run[b], i);
  }

  /** Once a countdown ends the ICAP is idle and its level low, whatever the latency; in the very
      next cycle the controller sees that and installs, before the ICAP can raise the level again. */
  lemma LevelSeen(cfg: Config, s: State, inp: Inputs)
    requires Reachable(cfg, s) && ValidInputs(cfg, s, inp) && CycleReady(s, inp) && Awaiting(s.core)
    ensures s.core.icap.st == IcapSpec.Idle && !s.sig.icapTrans
    ensures var r := Cycle(cfg, s, inp);
            r.Some? ==>
              && r.value.hist.installed == s.hist.installed + [s.core.icap.target.value]
              && r.value.hist.installed == Requests(s.hist.finished)
              && !r.value.core.icap.transferring
  {
    CycleTurns(cfg, s, inp);
    assert IcapRrc(cfg, s.core, s.core.icap.target.value.bs.regionId);
    if Cycle(cfg, s, inp).Some? {
      InstallsAwaited(cfg, s, inp, Cycle(cfg, s, inp).value);
    }
  }

  lemma AwaitedIsLast(s: State)
    requires Chained(s) && Awaiting(s.core)
    ensures |s.hist.finished| == |s.hist.installed| + 1
    ensures s.hist.finished[|s.hist.installed|].request == s.core.icap.target.value
  {
    var rs := Requests(s.hist.finished);
    assert rs == s.hist.installed + [s.core.icap.target.value];
    assert rs[|s.hist.installed|] == s.core.icap.target.value;
  }

  /** An install happens only right after the countdown of that same request has ended. */
  lemma InstallsOnlyFinished(cfg: Config, s: State, inp: Inputs)
    requires Reachable(cfg, s) && ValidInputs(cfg, s, inp) && CycleReady(s, inp)
    ensures var r := Cycle(cfg, s, inp);
            r.Some? && r.value.hist.installed != s.hist.installed ==>
              && Awaiting(s.core)
              && |s.hist.finished| == |s.hist.installed| + 1
              && r.value.hist.installed == s.hist.installed + [s.hist.finished[|s.hist.installed|].request]
  {
    CycleTurns(cfg, s, inp);
    var r := Cycle(cfg, s, inp);
    if r.Some? && r.value.hist.installed != s.hist.installed {
      InstallsAwaited(cfg, s, inp, r.value);
      AwaitedIsLast(s);
    }
  }

  lemma AckTurns(cfg: Config, s: State, inp: Inputs, t: State)
    requires Control(cfg, s) && Control(cfg, t) && SignalsFor(s.core, s.sig, inp) && Turns(cfg, s, inp, t)
    ensures s.core.prc.st == PrcSpec.RrSchedule && t.core.prc.st == PrcSpec.ReqIcap ==>
              !s.sig.icapAck && !t.sig.icapAck
    ensures Pending(s.core) ==> t.core.prc.scheduled == s.core.prc.scheduled
  {
  }

  /** The PRC raises a request only while no acknowledgement is visible, and an acknowledgement it
      sees belongs to its own pending request, which is still the scheduled bitstream. */
  lemma NoLeftoverAck(cfg: Config, s: State, inp: Inputs)
    requires Reachable(cfg, s) && ValidInputs(cfg, s, inp) && CycleReady(s, inp)
    ensures s.core.prc.st == PrcSpec.ReqIcap && s.sig.icapAck ==>
              s.core.icap.st == IcapSpec.Ack && s.hist.requested == s.hist.latched + [s.core.prc.scheduled]
    ensures var r := Cycle(cfg, s, inp);
            r.Some? && s.core.prc.st == PrcSpec.RrSchedule && r.value.core.prc.st == PrcSpec.ReqIcap ==>
              !s.sig.icapAck && !r.value.sig.icapAck
    ensures var r := Cycle(cfg, s, inp);
            r.Some? && Pending(s.core) ==> r.value.core.prc.scheduled == s.core.prc.scheduled
  {
    CycleTurns(cfg, s, inp);
    if Cycle(cfg, s, inp).Some? {
      AckTurns(cfg, s, inp, Cycle(cfg, s, inp).value);
    }
  }

  /** The assertion in the ICAP's acknowledge state never fails, and it never addresses a region
      outside its request bus. */
  lemma IcapNeverFaults(cfg: Config, s: State, inp: Inputs)
    requires Reachable(cfg, s) && SignalsFor(s.core, s.sig, inp)
    ensures !Fails(cfg, s.core, s.sig, inp, 1)
  {
    BusFromTarget(cfg, s);
  }

  /** A task is queued for the controller's action: an old one, or one pushed in this cycle. */
  predicate Queued(c: RrcSpec.Rrc, enqueue: Option<Node>) {
    c.queue != [] || (enqueue.Some? && !c.prcAck)
  }

  /** The module is idle once it has made its own step. */
  predicate IdleNext(m: Module) {
    m.st == ModuleState.Idle || (m.st == Exec && m.timestep >= m.latency)
  }

  /** The region already holds the module with this id. A placeholder's id is the largest 32-bit
      number, so a module of that id would be mistaken for it. */
  predicate AlreadyThere(region: Region, id: nat) {
    region.resident == Library(id) || (region.resident.Placeholder? && id == 0xFFFF_FFFF)
  }

  /** The two ways a controller faults: a queued task whose resident module has run before (its
      speed can no longer be set), or a request for the module that is already resident. */
  predicate MustFault(core: Core, sig: Signals, inp: Inputs, i: nat)
    requires WellSized(core) && SignalsFor(core, sig, inp) && i < |core.ctrls|
  {
    core.ctrls[i].st == RrcSpec.State.Idle &&
    if Queued(core.ctrls[i], inp.enqueue[i]) then IdleNext(Current(core.regions[i]))
    else sig.icapReq[i] && core.icap.target.Some? && AlreadyThere(core.regions[i], core.icap.target.value.bs.id)
  }

  /** What the invariant says about a controller about to act: an idle module has run before, the
      transfer wire is driven when it is read, and a completed transfer can be started. */
  ghost predicate Orderly(c: RrcSpec.Rrc, own: Region, inp: RrcSpec.Inputs, wire: Option<Request>) {
    && (Current(own).st == ModuleState.Idle ==> Current(own).inSim)
    && (c.st == RrcSpec.State.Idle && inp.icapReq ==> wire.Some?)
    && (c.st == RrcSpec.State.Transfer && !inp.icapTrans ==>
          && wire == Some(c.transferReq)
          && c.transferReq.bs.id in own.library && !own.library[c.transferReq.bs.id].inSim
          && Implements(c.transferReq.bs, c.transferReq.typeId))
  }

  lemma ActFaults(c: RrcSpec.Rrc, own: Region, inp: RrcSpec.Inputs, wire: Option<Request>, sim: Speed)
    requires Orderly(c, own, inp, wire)
    ensures RrcSpec.Act(c, own, inp, wire, sim).None? <==>
              && c.st == RrcSpec.State.Idle
              && if c.queue != [] then Current(own).st == ModuleState.Idle
                 else inp.icapReq && Current(own).id == wire.value.bs.id
  {
    if c.st == RrcSpec.State.Transfer && !inp.icapTrans {
      SpecFound(c.transferReq);
    }
  }

  lemma OrderlyActs(cfg: Config, s: State, inp: Inputs, i: nat)
    requires Reachable(cfg, s) && SignalsFor(s.core, s.sig, inp) && i < |s.core.ctrls|
    ensures var rin, own := RrcInputs(s.sig, inp, i), s.core.regions[i];
            Orderly(RrcSpec.Executed(RrcSpec.Handshakes(s.core.ctrls[i], rin), own), RrcSpec.Advance(own), rin,
                    s.core.icap.target)
  {
    assert IcapRrc(cfg, s.core, i) && RegionOk(cfg, s.core.ctrls[i], s.core.regions[i], i);
    PreludeKeeps(cfg, s.core.ctrls[i], s.core.regions[i], RrcInputs(s.sig, inp, i), i);
  }

  /** The prelude of a controller's cycle, in the terms of the fault conditions. */
  lemma PreludeShows(cfg: Config, c: RrcSpec.Rrc, own: Region, inp: RrcSpec.Inputs, i: nat, id: nat)
    requires i in cfg.specs && RegionOk(cfg, c, own, i)
    ensures var c1, own1 := RrcSpec.Executed(RrcSpec.Handshakes(c, inp), own), RrcSpec.Advance(own);
            && c1.st == c.st && (c1.queue != [] <==> Queued(c, inp.enqueue))
            && (Current(own1).st == ModuleState.Idle <==> IdleNext(Current(own)))
            && (Current(own1).id == id <==> AlreadyThere(own, id))
  {
  }

  /** A controller faults exactly in those two ways; completing a transfer never does. */
  lemma ControllerFaults(cfg: Config, s: State, inp: Inputs, i: nat)
    requires Reachable(cfg, s) && SignalsFor(s.core, s.sig, inp) && i < |s.core.ctrls|
    ensures Fails(cfg, s.core, s.sig, inp, i + 2) <==> MustFault(s.core, s.sig, inp, i)
  {
    OrderlyActs(cfg, s, inp, i);
    var c, rin, own := s.core.ctrls[i], RrcInputs(s.sig, inp, i), s.core.regions[i];
    assert RegionOk(cfg, c, own, i);
    PreludeShows(cfg, c, own, rin, i, if s.core.icap.target.Some? then s.core.icap.target.value.bs.id else 0);
    ActFaults(RrcSpec.Executed(RrcSpec.Handshakes(c, rin), own), RrcSpec.Advance(own), rin,
              s.core.icap.target, cfg.simSpeed);
  }

  /** Controller `i` is idle with nothing queued and sees the ICAP's request for module `id`. */
  predicate Asked(s: State, inp: Inputs, i: nat, id: nat)
    requires WellSized(s.core) && SignalsFor(s.core, s.sig, inp) && i < |s.core.ctrls|
  {
    && s.core.ctrls[i].st == RrcSpec.State.Idle && !Queued(s.core.ctrls[i], inp.enqueue[i])
    && s.sig.icapReq[i] && s.core.icap.target.Some? && s.core.icap.target.value.bs.id == id
  }

  /** For every id below 2^32 - 1: a visible request faults if and only if the region holds that
      very module; and a region that still has its placeholder accepts. */
  lemma RequestOutcome(cfg: Config, s: State, inp: Inputs, i: nat, id: nat)
    requires Reachable(cfg, s) && SignalsFor(s.core, s.sig, inp) && i < |s.core.ctrls|
    requires Asked(s, inp, i, id) && id < 0xFFFF_FFFF
    ensures Fails(cfg, s.core, s.sig, inp, i + 2) <==> s.core.regions[i].resident == Library(id)
    ensures s.core.regions[i].resident.Placeholder? ==>
              var r := RrcNext(cfg, s.core, s.sig, inp, i);
              r.Some? && r.value.0.st == RrcSpec.State.Transfer && r.value.0.icapAck
  {
    ControllerFaults(cfg, s, inp, i);
    if s.core.regions[i].resident.Placeholder? {
      assert RegionOk(cfg, s.core.ctrls[i], s.core.regions[i], i);
      PlaceholderAccepts(s.core.ctrls[i], s.core.regions[i], RrcInputs(s.sig, inp, i), s.core.icap.target,
                         cfg.simSpeed);
    }
  }

  lemma PlaceholderAccepts(c: RrcSpec.Rrc, own: Region, inp: RrcSpec.Inputs, wire: Option<Request>, sim: Speed)
    requires c.st == RrcSpec.State.Idle && !Queued(c, inp.enqueue) && inp.icapReq && !Current(own).running
    ensures var r := RrcSpec.Local(c, own, inp, wire, sim);
            r.Some? ==> r.value.0.st == RrcSpec.State.Transfer && r.value.0.icapAck
  {
  }

  /** The three ways the PRC faults: an empty queue when it wants a task, a selector that throws,
      and the state for enqueueing, which the source does not handle. */
  predicate PrcMustFault(core: Core, inp: Inputs) {
    || (core.prc.st == PrcSpec.TaskSchedule && inp.prc.next.None?)
    || (core.prc.st == PrcSpec.RrSchedule && inp.prc.selection.Raised?)
    || core.prc.st == PrcSpec.RrEnqueue
  }

  /** A cycle ends the simulation exactly when the PRC or some controller must fault. */
  lemma CycleFaults(cfg: Config, s: State, inp: Inputs)
    requires Reachable(cfg, s) && CycleReady(s, inp)
    ensures Cycle(cfg, s, inp).None? <==>
              PrcMustFault(s.core, inp) || exists i: nat :: i < |s.core.ctrls| && MustFault(s.core, s.sig, inp, i)
  {
    CycleAdvances(cfg, s, inp);
    IcapNeverFaults(cfg, s, inp);
    assert Fails(cfg, s.core, s.sig, inp, 0) <==> PrcMustFault(s.core, inp);
    forall i: nat | i < |s.core.ctrls|
      ensures Fails(cfg, s.core, s.sig, inp, i + 2) <==> MustFault(s.core, s.sig, inp, i)
    {
      ControllerFaults(cfg, s, inp, i);
    }
    if Cycle(cfg, s, inp).None? {
      var id: nat :| id < |s.core.ctrls| + 2 && Fails(cfg, s.core, s.sig, inp, id);
      if id >= 2 {
        assert MustFault(s.core, s.sig, inp, id - 2);
      }
    }
  }

  lemma SpecFound(r: Request)
    ensures RrcSpec.SpecForTask(r.bs, r.typeId).Some? <==> Implements(r.bs, r.typeId)
  {
  }

  /** Every region receives at most one bitstream in a whole run, because nothing ever clears a
      module's running flag; a region holds a library module exactly when it received one. */
  lemma OncePerRegion(cfg: Config, n: nat, run: seq<State>, inps: seq<Inputs>, k: nat)
    requires Simulates(cfg, n, run, inps) && k < |run|
    ensures Placed(run[k])
    ensures |run[k].hist.installed| <= n
  {
    SimulationReachable(cfg, n, run, inps, k);
    var h := run[k].hist.installed;
    var ids := seq(|h|, j requires 0 <= j < |h| => h[j].bs.regionId);
    forall j | 0 <= j < |h|
      ensures ids[j] < n
    {
      assert Holds(run[k].core, h[j]);
    }
    DistinctBounded(ids, n);
  }

  lemma {:induction false} DistinctBounded(ids: seq<nat>, n: nat)
    requires Distinct(ids) && forall j :: 0 <= j < |ids| ==> ids[j] < n
    ensures |ids| <= n
    decreases n
  {
    assert ids == [] || ids[0] < n;
    if n > 0 {
      if k: nat :| k < |ids| && ids[k] == n - 1 {
        var rest := ids[..k] + ids[k + 1..];
        DistinctBounded(rest, n - 1);
      } else {
        DistinctBounded(ids, n - 1);
      }
    }
  }

  /** `prr_executing_` of a region shows exactly whether the module its entry refers to executes. */
  lemma ExecutingMatches(cfg: Config, n: nat, run: seq<State>, inps: seq<Inputs>, k: nat, i: nat)
    requires Simulates(cfg, n, run, inps) && k < |run| && i < n
    ensures |run[k].core.ctrls| == |run[k].core.regions| == |run[k].sig.executing| == n
    ensures run[k].sig.executing[i] == run[k].core.ctrls[i].executing
         == (Current(run[k].core.regions[i]).st == Exec)
  {
    SimulationReachable(cfg, n, run, inps, k);
    assert RegionOk(cfg, run[k].core.ctrls[i], run[k].core.regions[i], i);
  }

  /** Stepping one controller, even amid a cycle, leaves every other region's entry, library
      modules and controller untouched. */
  lemma OnlyOwnRegion(cfg: Config, s: State, inp: Inputs, done: set<nat>, mid: Core, i: nat, j: nat)
    requires Reachable(cfg, s) && SignalsFor(s.core, s.sig, inp)
    requires Blended(cfg, s.core, s.sig, inp, done, mid) && i < |s.core.ctrls| && i + 2 !in done
    requires j < |s.core.ctrls| && j != i
    ensures var r := StepOne(cfg, mid, s.sig, inp, i + 2);
            r.Some? ==>
              r.value.regions[j] == mid.regions[j] && r.value.ctrls[j] == mid.ctrls[j]
              && r.value.prc == mid.prc && r.value.icap == mid.icap
  {
    RrcBlended(cfg, s, inp, done, mid, i);
  }
}

/** The source's component objects. Each steps against the signal context's stored copies; the
    scheduled and the transferred bitstream are read from their owner directly. */
module Components {
  import opened Types
  import opened Modules
  import opened Configuration
  import opened Storage
  import opened Machine
  import Application
  import Scheduler
  import Selector
  import PrcSpec
  import IcapSpec
  import RrcSpec

  /** The latched copies of all signals. */
  class SignalContext {
    var prcIcapReq: bool
    var icapPrcAck: bool
    var icapTransfer: bool
    var icapPrrReq: seq<bool>
    var prrIcapAck: bool
    var prrExecuting: seq<bool>

    function Value(): Signals
      reads this
    {
      Signals(prcIcapReq, icapPrcAck, icapTransfer, icapPrrReq, prrIcapAck, prrExecuting)
    }

    constructor (n: nat)
      ensures Value() == Signals(false, false, false, seq(n, i => false), false, seq(n, i => false))
    {
      prcIcapReq, icapPrcAck, icapTransfer, prrIcapAck := false, false, false, false;
      icapPrrReq, prrExecuting := seq(n, i => false), seq(n, i => false);
    }

    /** Publishes all outputs at once; the acknowledge bus is the OR of the controllers' lines. */
    method RefreshContext(prc: Prc, icap: Icap, ctrls: seq<RrController>, ghost regions: seq<Region>)
      requires |icap.prrCtrlReq| == |ctrls|
      modifies this
      ensures Value() == Latch(Core(prc.Value(), icap.Value(), Values(ctrls), regions))
    {
      prcIcapReq, icapPrcAck, icapTransfer := prc.icapReq, icap.prcAck, icap.transferring;
      var reqs: seq<bool> := [];
      for i := 0 to |ctrls|
        invariant reqs == icap.prrCtrlReq[..i]
      {
        reqs := reqs + [icap.prrCtrlReq[i]];
      }
      assert reqs == icap.prrCtrlReq;
      icapPrrReq := reqs;
      prrIcapAck := AnyAcknowledge(ctrls);
      prrExecuting := ExecutingBus(ctrls);
    }

    /** The OR over the controllers' acknowledgements. */
    static method AnyAcknowledge(ctrls: seq<RrController>) returns (acked: bool)
      ensures acked <==> exists i :: 0 <= i < |Values(ctrls)| && Values(ctrls)[i].icapAck
    {
      acked := false;
      for i := 0 to |ctrls|
        invariant acked <==> exists j :: 0 <= j < i && ctrls[j].icapAck
      {
        if ctrls[i].icapAck {
          acked := true;
        }
      }
      assert forall j :: 0 <= j < |ctrls| ==> Values(ctrls)[j].icapAck == ctrls[j].icapAck;
    }

    /** The controllers' executing lines. */
    static method ExecutingBus(ctrls: seq<RrController>) returns (busy: seq<bool>)
      ensures busy == ExecutingLines(Values(ctrls))
    {
      ghost var values := Values(ctrls);
      busy := [];
      for i := 0 to |ctrls|
        invariant |busy| == i && forall j :: 0 <= j < i ==> busy[j] == values[j].executing
      {
        busy := busy + [ctrls[i].prrExecuting];
      }
    }
  }

  function ExecutingLines(cs: seq<RrcSpec.Rrc>): seq<bool> {
    seq(|cs|, i requires 0 <= i < |cs| => cs[i].executing)
  }

  function Values(ctrls: seq<RrController>): seq<RrcSpec.Rrc>
    reads ctrls
  {
    seq(|ctrls|, i requires 0 <= i < |ctrls| reads ctrls => ctrls[i].Value())
  }

  class Icap {
    var state: IcapSpec.State
    var prcAck: bool
    var transferring: bool
    var transferLatency: nat
    var prrCtrlReq: seq<bool>
    var transferBs: Option<Request>

    function Value(): IcapSpec.Icap
      reads this
    {
      IcapSpec.Icap(state, prcAck, transferring, transferLatency, prrCtrlReq, transferBs)
    }

    constructor (n: nat)
      ensures Value() == IcapSpec.Initial(n)
    {
      state, prcAck, transferring, transferLatency := IcapSpec.Init, false, false, 0;
      prrCtrlReq, transferBs := seq(n, i => false), None;
    }

    /** Latches the PRC's scheduled bitstream and addresses its region; false outside the bus. */
    method LatchBitstream(bitstream: Request) returns (ok: bool)
      modifies this
      ensures |prrCtrlReq| == |old(prrCtrlReq)| && ok == (bitstream.bs.regionId < |prrCtrlReq|)
      ensures ok ==>
                Value() == old(Value()).(prcAck := false, target := Some(bitstream), transferring := true,
                                         st := IcapSpec.Wait,
                                         prrReq := old(prrCtrlReq)[bitstream.bs.regionId := true])
    {
      prcAck := false;
      transferBs := Some(bitstream);
      var rrId := bitstream.bs.regionId;
      ok := rrId < |prrCtrlReq|;
      if ok {
        prrCtrlReq := prrCtrlReq[rrId := true];
        transferring := true;
        state := IcapSpec.Wait;
      }
    }

    /** Takes back the request and starts the countdown; false without a bitstream to transfer. */
    method BeginTransfer(cfg: Config) returns (ok: bool)
      modifies this
      ensures |prrCtrlReq| == |old(prrCtrlReq)|
      ensures ok == (transferBs.Some? && transferBs.value.bs.regionId < |prrCtrlReq|)
      ensures ok ==>
                var r := transferBs.value.bs.regionId;
                Value() == old(Value()).(prrReq := old(prrCtrlReq)[r := false], latency := cfg.TransferLatency(r),
                                         st := IcapSpec.Transfer)
      ensures transferBs == old(transferBs)
    {
      ok := transferBs.Some? && transferBs.value.bs.regionId < |prrCtrlReq|;
      if ok {
        var rrId := transferBs.value.bs.regionId;
        prrCtrlReq := prrCtrlReq[rrId := false];
        transferLatency := cfg.TransferLatency(rrId);
        state := IcapSpec.Transfer;
      }
    }

    /** One cycle; `ready` is the readiness guard's outcome. False is a fault. */
    method Step(cfg: Config, signals: SignalContext, prc: Prc, ready: bool) returns (ok: bool)
      modifies this
      ensures var r := IcapSpec.Step(cfg, old(Value()), signals.prcIcapReq, signals.prrIcapAck, ready, prc.scheduledBs);
              ok == r.Some? && (ok ==> Value() == r.value)
      ensures |prrCtrlReq| == |old(prrCtrlReq)|
    {
      ok := true;
      if prcAck && !signals.prcIcapReq {
        prcAck := false;
      }
      match state {
        case Init =>
          state := IcapSpec.Idle;
        case Idle =>
          if signals.prcIcapReq {
            if ready {
              prcAck, state := true, IcapSpec.Ack;
            } else {
              state := IcapSpec.Wait;
            }
          }
        case Ack =>
          var reqOff := !signals.prcIcapReq;
          ok := prcAck || reqOff;
          if reqOff {
            ok := LatchBitstream(prc.scheduledBs);
          }
        case Wait =>
          if signals.prrIcapAck {
            ok := BeginTransfer(cfg);
          }
        case Transfer =>
          var last := transferLatency == 0;
          transferLatency := if last then IcapSpec.LATENCY_WRAP else transferLatency - 1;
          if last {
            transferring := false;
            state := IcapSpec.Idle;
          }
      }
    }
  }

  class Prc {
    const scheduler: Scheduler.FcfsScheduler
    const selector: Selector.LftFeSelector
    var state: PrcSpec.State
    var icapReq: bool
    var scheduledTask: Node
    var scheduledBs: Request

    function Value(): PrcSpec.Prc
      reads this
    {
      PrcSpec.Prc(state, icapReq, scheduledTask, scheduledBs)
    }

    ghost predicate Valid()
      reads this, scheduler
    {
      selector.Valid() && scheduler.Valid()
    }

    constructor (scheduler: Scheduler.FcfsScheduler, selector: Selector.LftFeSelector)
      requires selector.Valid() && scheduler.Valid()
      ensures Valid() && Value() == PrcSpec.Initial()
      ensures this.scheduler == scheduler && this.selector == selector
    {
      this.scheduler, this.selector := scheduler, selector;
      state, icapReq, scheduledTask := PrcSpec.Init, false, Node("", None);
      scheduledBs := Request(NULL_SPEC, "");
    }

    /** Takes the scheduler's front task; false when there is none. */
    method TakeTask() returns (ok: bool)
      requires Valid() && state == PrcSpec.TaskSchedule
      modifies this`state, this`scheduledTask, scheduler`taskQueue
      ensures Valid() && ok == (old(scheduler.taskQueue) != [])
      ensures ok ==> Value() == old(Value()).(st := PrcSpec.RrSchedule, task := scheduledTask)
      ensures ok ==> scheduledTask == Scheduler.NodeOf(scheduler.graph, old(scheduler.taskQueue)[0])
      ensures scheduler.taskQueue == if ok then Scheduler.Next(scheduler.graph, old(scheduler.taskQueue)) else []
    {
      ok := |scheduler.taskQueue| != 0;
      if ok {
        scheduledTask := scheduler.GetCurrentTask();
        scheduler.PrepareNextTask();
        state := PrcSpec.RrSchedule;
      }
    }

    /** Asks the selector for a bitstream and decides what becomes of it; false when it throws. */
    method ScheduleBitstream(signals: SignalContext, installed: bool, targeted: bool)
      returns (ok: bool, target: Selection)
      requires Valid() && state == PrcSpec.RrSchedule
      requires forall t: string, q: nat :: Application.Capable(selector.specs, t, q) ==> q < |signals.prrExecuting|
      modifies this`state, this`icapReq, this`scheduledBs
      ensures Selector.Answers(selector.specs, signals.prrExecuting, selector.lessFlex, selector.lessSpeed,
                               scheduledTask, target)
      ensures var inp := PrcSpec.Inputs(None, target, installed, targeted);
              var r := PrcSpec.Step(old(Value()), signals.icapPrcAck, signals.icapTransfer, inp);
              ok == r.Some? && (ok ==> Value() == r.value)
    {
      target := selector.GetBitstreamForTask(scheduledTask, signals.prrExecuting);
      ok := !target.Raised?;
      if !ok {
        return;
      }
      var notFound := target.NotFound?;
      scheduledBs := Request(if notFound then NULL_SPEC else target.spec, PrcSpec.TypeOf(scheduledTask));
      var transferringToRr := signals.icapTransfer && targeted;
      var notImmediatelyAvailable := transferringToRr && !installed;
      if notFound || notImmediatelyAvailable {
        state := PrcSpec.TaskSchedule;
      } else if installed {
        state := PrcSpec.RrEnqueue;
      } else {
        state, icapReq := PrcSpec.ReqIcap, true;
      }
    }

    /** One cycle, with the scheduler and the selector the source wires in. `installed` and
        `targeted` stand for the two wires it leaves unconnected. False is a fault. */
    method Step(signals: SignalContext, installed: bool, targeted: bool)
      returns (ok: bool, ghost inp: PrcSpec.Inputs)
      requires Valid()
      requires forall t: string, q: nat :: Application.Capable(selector.specs, t, q) ==> q < |signals.prrExecuting|
      modifies this, scheduler`taskQueue
      ensures Valid()
      ensures var r := PrcSpec.Step(old(Value()), signals.icapPrcAck, signals.icapTransfer, inp);
              ok == r.Some? && (ok ==> Value() == r.value)
      ensures inp.next == Scheduler.Front(scheduler.graph, old(scheduler.taskQueue))
      ensures inp.installed == installed && inp.targeted == targeted
      ensures old(state) == PrcSpec.RrSchedule ==>
                Selector.Answers(selector.specs, signals.prrExecuting, selector.lessFlex, selector.lessSpeed,
                                 old(scheduledTask), inp.selection)
      ensures scheduler.taskQueue ==
                if old(state) == PrcSpec.TaskSchedule
                then Scheduler.Dispatched(scheduler.graph, old(scheduler.taskQueue)) else old(scheduler.taskQueue)
    {
      ok := true;
      inp := PrcSpec.Inputs(Scheduler.Front(scheduler.graph, scheduler.taskQueue), NotFound, installed, targeted);
      match state {
        case Init =>
          state := PrcSpec.TaskSchedule;
        case TaskSchedule =>
          ok := TakeTask();
        case RrSchedule =>
          var target;
          ok, target := ScheduleBitstream(signals, installed, targeted);
          inp := inp.(selection := target);
        case ReqIcap =>
          if signals.icapPrcAck {
            icapReq, state := false, PrcSpec.TaskSchedule;
          }
        case RrEnqueue =>
          ok := false;
      }
    }
  }

  class RrController {
    const prrId: nat
    var state: RrcSpec.State
    var icapAck: bool
    var prcAck: bool
    var prrExecuting: bool
    var actionQueue: seq<Node>
    var icapTransferBs: Request
    var installedBs: Request

    function Value(): RrcSpec.Rrc
      reads this
    {
      RrcSpec.Rrc(state, icapAck, prcAck, prrExecuting, actionQueue, icapTransferBs, installedBs)
    }

    constructor (prrId: nat)
      ensures this.prrId == prrId && Value() == RrcSpec.Initial()
    {
      this.prrId := prrId;
      state, icapAck, prcAck, prrExecuting, actionQueue := RrcSpec.State.Init, false, false, false, [];
      icapTransferBs, installedBs := Request(NULL_SPEC, ""), Request(NULL_SPEC, "");
    }

    method SpecForTask(typeId: string) returns (r: Option<TaskSpec>)
      ensures r == RrcSpec.SpecForTask(installedBs.bs, typeId)
      ensures r.Some? ==> RrcSpec.FirstOfType(installedBs.bs.tasks, typeId, r.value)
    {
      var tasks := installedBs.bs.tasks;
      for k := 0 to |tasks|
        invariant forall j :: 0 <= j < k ==> tasks[j].typeId != typeId
      {
        if tasks[k].typeId == typeId {
          assert RrcSpec.SpecIndex(tasks, typeId) == k;
          return Some(tasks[k]);
        }
      }
      r := None;
    }

    method Handshake(enqueue: Option<Node>, icapReq: bool, ghost icapTrans: bool)
      modifies this
      ensures Value() == RrcSpec.Handshakes(old(Value()), RrcSpec.Inputs(enqueue, icapReq, icapTrans))
    {
      if enqueue.Some? && !prcAck {
        actionQueue := actionQueue + [enqueue.value];
        prcAck := true;
      } else if prcAck && enqueue.None? {
        prcAck := false;
      }
      if icapAck && !icapReq {
        icapAck := false;
      }
    }

    /** Sets the speed of a module and starts it; false when setting the speed throws. */
    method StartModule(m: RrModule, spec: TaskSpec, sim: Speed) returns (ok: bool)
      modifies this`prrExecuting, m
      ensures ok <==> Modules.SetSpeed(old(m.Value()), spec.speed).Some?
      ensures ok ==> prrExecuting
      ensures ok ==> (var m1 := Modules.SetSpeed(old(m.Value()), spec.speed).value;
                      m.Value() == Modules.BeginExecution(m1, sim, spec.cycles))
    {
      ok := m.SetSpeed(spec.speed);
      if ok {
        m.BeginExecution(sim, spec.cycles);
        prrExecuting := true;
      }
    }

    /** Starts a task on the module in region `r`'s entry. */
    method BeginTask(r: nat, typeId: string, prr: ReconfigurableRegions, mem: MemoryLevel, n: nat, sim: Speed)
      returns (ok: bool)
      requires Linked(prr, mem, n) && r < n
      modifies this`prrExecuting, prr.table[r]
      ensures var before := old(RegionsValue(prr, mem, n));
              Outcome(ok, Value(), RegionsValue(prr, mem, n), before, r, RrcSpec.Begin(old(Value()), before[r],
                                                                                       typeId, sim))
    {
      ghost var values := Snapshot(prr, mem);
      var m := prr.table[r];
      CurrentChanged(prr.table, mem.table, values, n, r, m.Value());
      var spec := SpecForTask(typeId);
      if spec.None? {
        return false;
      }
      ok := StartModule(m, spec.value, sim);
      if ok {
        CurrentChanged(prr.table, mem.table, values, n, r, m.Value());
        SnapshotChanged(prr, mem, values, m);
      }
    }

    /** The resident module's own cycle. */
    method StepModule(prr: ReconfigurableRegions, mem: MemoryLevel, n: nat)
      requires Linked(prr, mem, n) && prrId < n
      modifies this`prrExecuting, prr.table[prrId]
      ensures var before := old(RegionsValue(prr, mem, n));
              && Value() == RrcSpec.Executed(old(Value()), before[prrId])
              && RegionsValue(prr, mem, n) == before[prrId := RrcSpec.Advance(before[prrId])]
    {
      ghost var values := Snapshot(prr, mem);
      ghost var before := RegionsValue(prr, mem, n);
      var m := prr.table[prrId];
      CurrentChanged(prr.table, mem.table, values, n, prrId, m.Value());
      if m.st == Exec {
        var finished := m.Step();
        if finished {
          prrExecuting := false;
        }
        CurrentChanged(prr.table, mem.table, values, n, prrId, m.Value());
        SnapshotChanged(prr, mem, values, m);
      } else {
        assert before[prrId := before[prrId]] == before;
      }
    }

    /** Offers the accepted request to region `r`; false when its module is already there. */
    method OfferTransfer(r: nat, prr: ReconfigurableRegions, mem: MemoryLevel, n: nat) returns (ok: bool)
      requires Linked(prr, mem, n) && r < n
      modifies this`icapAck, this`state, prr.table[r]
      ensures var before := old(RegionsValue(prr, mem, n));
              Outcome(ok, Value(), RegionsValue(prr, mem, n), before, r, RrcSpec.Offer(old(Value()), before[r]))
    {
      ghost var values := Snapshot(prr, mem);
      ghost var before := RegionsValue(prr, mem, n);
      var m := prr.table[r];
      CurrentChanged(prr.table, mem.table, values, n, r, m.Value());
      ok := m.id != icapTransferBs.bs.id;
      if ok && !m.executing {
        icapAck := true;
        m.BeginTransfer();
        state := RrcSpec.State.Transfer;
        CurrentChanged(prr.table, mem.table, values, n, r, m.Value());
        SnapshotChanged(prr, mem, values, m);
      } else {
        assert before[r := before[r]] == before;
      }
    }

    /** The idle state's action with a task queued. */
    method PopTask(prr: ReconfigurableRegions, mem: MemoryLevel, n: nat, sim: Speed) returns (ok: bool)
      requires Linked(prr, mem, n) && prrId < n && actionQueue != []
      modifies this`actionQueue, this`prrExecuting, prr.table[prrId]
      ensures var before := old(RegionsValue(prr, mem, n));
              Outcome(ok, Value(), RegionsValue(prr, mem, n), before, prrId, RrcSpec.Pop(old(Value()), before[prrId],
                                                                                         sim))
    {
      ghost var before := RegionsValue(prr, mem, n);
      var m := prr.table[prrId];
      CurrentChanged(prr.table, mem.table, Snapshot(prr, mem), n, prrId, m.Value());
      if m.st != ModuleState.Idle {
        assert before[prrId := before[prrId]] == before;
        return true;
      }
      var task := actionQueue[0];
      actionQueue := actionQueue[1..];
      if task.typeId.None? {
        return false;
      }
      assert RegionsValue(prr, mem, n) == before;
      ok := BeginTask(prrId, task.typeId.value, prr, mem, n, sim);
    }

    /** Puts the transferred module into its region's entry. */
    method Install(transferred: RrModule, prr: ReconfigurableRegions, mem: MemoryLevel, n: nat)
      requires Linked(prr, mem, n) && transferred.regionId < n
      requires mem.Has(transferred.regionId, transferred.id)
      requires mem.table[transferred.regionId][transferred.id] == transferred
      modifies prr
      ensures Linked(prr, mem, n) && Objects(prr, mem) <= old(Objects(prr, mem))
      ensures var before, r := old(RegionsValue(prr, mem, n)), transferred.regionId;
              RegionsValue(prr, mem, n) == before[r := before[r].(resident := Resident.Library(transferred.id))]
      ensures prr.table[transferred.regionId] == transferred && transferred in old(Objects(prr, mem))
    {
      ghost var values := Snapshot(prr, mem);
      EntryReplaced(prr.table, mem.table, values, n, transferred.regionId, transferred.id);
      prr.InsertModule(transferred);
      SameRegions(prr.table, mem.table, values, Snapshot(prr, mem), n);
    }

    /** Fetches the accepted module from main memory into its region's entry. */
    method FetchModule(prr: ReconfigurableRegions, mem: MemoryLevel, n: nat) returns (ok: bool)
      requires Linked(prr, mem, n)
      modifies prr
      ensures Linked(prr, mem, n) && Objects(prr, mem) <= old(Objects(prr, mem))
      ensures var before, r, id := old(RegionsValue(prr, mem, n)), icapTransferBs.bs.regionId, icapTransferBs.bs.id;
              && ok == (r < n && id in before[r].library)
              && (ok ==> && RegionsValue(prr, mem, n) == before[r := before[r].(resident := Resident.Library(id))]
                         && prr.table[r] in old(Objects(prr, mem)))
    {
      ghost var before := RegionsValue(prr, mem, n);
      Stocked(prr, mem, n, icapTransferBs.bs.regionId, icapTransferBs.bs.id);
      var transferred := mem.GetModule(icapTransferBs.bs.regionId, icapTransferBs.bs.id);
      assert RegionsValue(prr, mem, n) == before;
      ok := transferred.Some?;
      if ok {
        Install(transferred.value, prr, mem, n);
      }
    }

    /** Records the installed bitstream and starts its task on region `r`. */
    method StartInstalled(wire: Request, r: nat, prr: ReconfigurableRegions, mem: MemoryLevel, n: nat, sim: Speed)
      returns (ok: bool)
      requires Linked(prr, mem, n) && r < n
      modifies this`installedBs, this`state, this`prrExecuting, prr.table[r]
      ensures var before := old(RegionsValue(prr, mem, n));
              Outcome(ok, Value(), RegionsValue(prr, mem, n), before, r,
                      RrcSpec.Begin(old(Value()).(installed := wire, st := RrcSpec.State.Idle), before[r],
                                    wire.typeId, sim))
    {
      ghost var before := RegionsValue(prr, mem, n);
      installedBs := wire;
      state := RrcSpec.State.Idle;
      assert RegionsValue(prr, mem, n) == before;
      ok := BeginTask(r, wire.typeId, prr, mem, n, sim);
    }

    /** The transfer state's action once the level is low: installs and starts the module. */
    method CompleteTransfer(wire: Option<Request>, prr: ReconfigurableRegions, mem: MemoryLevel, n: nat, sim: Speed)
      returns (ok: bool)
      requires Linked(prr, mem, n)
      modifies this`installedBs, this`state, this`prrExecuting, prr, Objects(prr, mem)
      ensures Linked(prr, mem, n) && Objects(prr, mem) <= old(Objects(prr, mem))
      ensures var before, r := old(RegionsValue(prr, mem, n)), icapTransferBs.bs.regionId;
              if r >= n then !ok
              else Outcome(ok, Value(), RegionsValue(prr, mem, n), before, r,
                           RrcSpec.Complete(old(Value()), before[r], wire, sim))
    {
      if wire.None? {
        return false;
      }
      ghost var before, c := RegionsValue(prr, mem, n), Value();
      ok := FetchModule(prr, mem, n);
      if ok {
        ghost var between := RegionsValue(prr, mem, n);
        ok := StartInstalled(wire.value, icapTransferBs.bs.regionId, prr, mem, n, sim);
        CompleteOutcome(ok, c, Value(), RegionsValue(prr, mem, n), before, between, icapTransferBs.bs.regionId, wire,
                        sim);
      }
    }

    /** Accepts a request on the region it names, unless that region refuses. */
    method AcceptRequest(wire: Request, prr: ReconfigurableRegions, mem: MemoryLevel, n: nat) returns (ok: bool)
      requires Linked(prr, mem, n) && wire.bs.regionId < n
      modifies this`icapTransferBs, this`icapAck, this`state, prr.table[wire.bs.regionId]
      ensures var before, r := old(RegionsValue(prr, mem, n)), wire.bs.regionId;
              Outcome(ok, Value(), RegionsValue(prr, mem, n), before, r,
                      RrcSpec.Offer(old(Value()).(transferReq := wire), before[r]))
    {
      ghost var before := RegionsValue(prr, mem, n);
      icapTransferBs := wire;
      assert RegionsValue(prr, mem, n) == before;
      ok := OfferTransfer(wire.bs.regionId, prr, mem, n);
    }

    /** Takes up the ICAP's visible request; a fault when its region has no entry. */
    method TakeRequest(wire: Option<Request>, prr: ReconfigurableRegions, mem: MemoryLevel, n: nat) returns (ok: bool)
      requires Linked(prr, mem, n)
      modifies this`icapTransferBs, this`icapAck, this`state, prr.table.Values
      ensures wire.None? || wire.value.bs.regionId >= n ==> !ok
      ensures wire.Some? && wire.value.bs.regionId < n ==>
                var before, r := old(RegionsValue(prr, mem, n)), wire.value.bs.regionId;
                Outcome(ok, Value(), RegionsValue(prr, mem, n), before, r,
                        RrcSpec.Offer(old(Value()).(transferReq := wire.value), before[r]))
    {
      if wire.None? {
        return false;
      }
      ghost var before := RegionsValue(prr, mem, n);
      var entry := prr.GetModuleFromRegion(wire.value.bs.regionId);
      assert RegionsValue(prr, mem, n) == before;
      if entry.None? {
        return false;
      }
      ok := AcceptRequest(wire.value, prr, mem, n);
    }

    /** The idle state's action. */
    method ActIdle(icapReq: bool, wire: Option<Request>, prr: ReconfigurableRegions, mem: MemoryLevel, n: nat,
                   sim: Speed)
      returns (ok: bool)
      requires Linked(prr, mem, n) && prrId < n && state == RrcSpec.State.Idle
      modifies this, prr.table.Values
      ensures var before, inp := old(RegionsValue(prr, mem, n)), RrcSpec.Inputs(None, icapReq, true);
              var r := RrcSpec.TargetRegion(prrId, old(Value()), inp, wire);
              if r >= n then !ok
              else Outcome(ok, Value(), RegionsValue(prr, mem, n), before, r,
                           RrcSpec.ActIdle(old(Value()), before[r], inp, wire, sim))
    {
      ok := true;
      if |actionQueue| != 0 {
        ok := PopTask(prr, mem, n, sim);
      } else if icapReq {
        ok := TakeRequest(wire, prr, mem, n);
      } else {
        NothingDone(Value(), RegionsValue(prr, mem, n), prrId);
      }
    }

    /** The action of the controller's state. */
    method Act(icapReq: bool, icapTrans: bool, wire: Option<Request>, prr: ReconfigurableRegions, mem: MemoryLevel,
               n: nat, sim: Speed) returns (ok: bool)
      requires Linked(prr, mem, n) && prrId < n
      modifies this, prr, Objects(prr, mem)
      ensures Linked(prr, mem, n) && Objects(prr, mem) <= old(Objects(prr, mem))
      ensures var before, inp := old(RegionsValue(prr, mem, n)), RrcSpec.Inputs(None, icapReq, icapTrans);
              var r := RrcSpec.TargetRegion(prrId, old(Value()), inp, wire);
              if r >= n then !ok
              else Outcome(ok, Value(), RegionsValue(prr, mem, n), before, r,
                           RrcSpec.Act(old(Value()), before[r], inp, wire, sim))
    {
      if state == RrcSpec.State.Idle {
        ok := ActIdle(icapReq, wire, prr, mem, n, sim);
      } else if state == RrcSpec.State.Transfer && !icapTrans {
        ok := CompleteTransfer(wire, prr, mem, n, sim);
      } else {
        ghost var before := RegionsValue(prr, mem, n);
        assert before[prrId := before[prrId]] == before;
        ok := true;
        if state == RrcSpec.State.Init {
          state := RrcSpec.State.Idle;
          assert RegionsValue(prr, mem, n) == before;
        }
      }
    }

    /** The handshakes and the resident module's own cycle, which come before any action. */
    method Prelude(enqueue: Option<Node>, icapReq: bool, ghost icapTrans: bool, prr: ReconfigurableRegions,
                   mem: MemoryLevel, n: nat)
      requires Linked(prr, mem, n) && prrId < n
      modifies this, prr.table[prrId]
      ensures var before, inp := old(RegionsValue(prr, mem, n)), RrcSpec.Inputs(enqueue, icapReq, icapTrans);
              && Value() == RrcSpec.Executed(RrcSpec.Handshakes(old(Value()), inp), before[prrId])
              && RegionsValue(prr, mem, n) == before[prrId := RrcSpec.Advance(before[prrId])]
    {
      ghost var before := RegionsValue(prr, mem, n);
      Handshake(enqueue, icapReq, icapTrans);
      assert RegionsValue(prr, mem, n) == before;
      StepModule(prr, mem, n);
    }

    /** One cycle; `enqueue` is the current task while the PRC's line is high. False is a fault. */
    method Step(signals: SignalContext, enqueue: Option<Node>, icap: Icap, prr: ReconfigurableRegions, mem: MemoryLevel,
                n: nat, sim: Speed) returns (ok: bool)
      requires Linked(prr, mem, n) && prrId < n <= |signals.icapPrrReq|
      modifies this, prr, Objects(prr, mem)
      ensures Linked(prr, mem, n) && Objects(prr, mem) <= old(Objects(prr, mem))
      ensures var inp := RrcSpec.Inputs(enqueue, signals.icapPrrReq[prrId], signals.icapTransfer);
              var res := RrcSpec.Step(prrId, old(Value()), old(RegionsValue(prr, mem, n)), inp, icap.transferBs, sim);
              ok == res.Some? && (ok ==> Value() == res.value.0 && RegionsValue(prr, mem, n) == res.value.1)
    {
      ghost var before, c := RegionsValue(prr, mem, n), Value();
      var icapReq := signals.icapPrrReq[prrId];
      Prelude(enqueue, icapReq, signals.icapTransfer, prr, mem, n);
      ghost var between, c1 := RegionsValue(prr, mem, n), Value();
      ok := Act(icapReq, signals.icapTransfer, icap.transferBs, prr, mem, n, sim);
      StepOutcome(prrId, c, before, RrcSpec.Inputs(enqueue, icapReq, signals.icapTransfer),
                  icap.transferBs, sim, c1, between, ok, Value(), RegionsValue(prr, mem, n));
    }
  }

  /** What one action did: a fault, or the given controller value and one region changed. */
  ghost predicate Outcome(ok: bool, c: RrcSpec.Rrc, regions: seq<Region>, before: seq<Region>, r: nat,
                          res: Option<(RrcSpec.Rrc, Region)>)
    requires r < |before|
  {
    ok == res.Some? && (ok ==> c == res.value.0 && regions == before[r := res.value.1])
  }

  lemma NothingDone(c: RrcSpec.Rrc, regions: seq<Region>, r: nat)
    requires r < |regions|
    ensures Outcome(true, c, regions, regions, r, Some((c, regions[r])))
  {
    assert regions[r := regions[r]] == regions;
  }

  lemma CompleteOutcome(ok: bool, c: RrcSpec.Rrc, c': RrcSpec.Rrc, regions: seq<Region>, before: seq<Region>,
                        between: seq<Region>, r: nat, wire: Option<Request>, sim: Speed)
    requires r < |before| && wire.Some? && c.transferReq.bs.id in before[r].library
    requires between == before[r := before[r].(resident := Resident.Library(c.transferReq.bs.id))]
    requires Outcome(ok, c', regions, between, r,
                     RrcSpec.Begin(c.(installed := wire.value, st := RrcSpec.State.Idle), between[r],
                                   wire.value.typeId, sim))
    ensures Outcome(ok, c', regions, before, r, RrcSpec.Complete(c, before[r], wire, sim))
  {
  }

  lemma StepOutcome(i: nat, c: RrcSpec.Rrc, regions: seq<Region>, inp: RrcSpec.Inputs, wire: Option<Request>,
                    sim: Speed,
                    c1: RrcSpec.Rrc, regions1: seq<Region>, ok: bool, c2: RrcSpec.Rrc, regions2: seq<Region>)
    requires i < |regions| && c1 == RrcSpec.Executed(RrcSpec.Handshakes(c, inp), regions[i])
    requires regions1 == regions[i := RrcSpec.Advance(regions[i])]
    requires var inp1 := inp.(enqueue := None);
             var t := RrcSpec.TargetRegion(i, c1, inp1, wire);
             if t >= |regions| then !ok
             else Outcome(ok, c2, regions2, regions1, t, RrcSpec.Act(c1, regions1[t], inp1, wire, sim))
    ensures var res := RrcSpec.Step(i, c, regions, inp, wire, sim);
            ok == res.Some? && (ok ==> c2 == res.value.0 && regions2 == res.value.1)
  {
    var inp1 := inp.(enqueue := None);
    forall region
      ensures RrcSpec.Act(c1, region, inp1, wire, sim) == RrcSpec.Act(c1, region, inp, wire, sim)
    {
    }
  }
}

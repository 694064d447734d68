/** When, exactly, a raised request is served: after a fixed number of cycles, or never. */
module Progress {
  import opened Types
  import opened Modules
  import opened Configuration
  import opened Machine
  import opened Protocol
  import opened Preservation
  import opened Ledger
  import opened Safety
  import PrcSpec
  import IcapSpec
  import RrcSpec

  /** Cycles from raising a request to installing its bitstream, besides the transfer latency. */
  const OVERHEAD: nat := 7

  predicate Running(core: Core, i: nat)
    requires WellSized(core) && i < |core.ctrls|
  {
    Current(core.regions[i]).running
  }

  /** Request number `p`, for `r`, on its way to the controller of its region: with the PRC, seen
      by the ICAP, or offered to the controller. */
  predicate Offers(cfg: Config, s: State, r: Request, p: nat, left: int) {
    var i, core, latency := r.bs.regionId, s.core, cfg.TransferLatency(r.bs.regionId);
    && i < |core.ctrls| && core.ctrls[i].st != RrcSpec.State.Transfer
    && match core.icap.st
       case Idle =>
         && core.prc.st == PrcSpec.ReqIcap && core.prc.scheduled == r && |s.hist.latched| == p
         && left == latency + OVERHEAD
       case Ack =>
         && core.ctrls[i].st == RrcSpec.State.Idle && core.prc.scheduled == r && |s.hist.latched| == p
         && left == (if core.prc.st == PrcSpec.ReqIcap then latency + 6 else latency + 5)
       case Wait =>
         && core.ctrls[i].st == RrcSpec.State.Idle && core.icap.transferring
         && core.icap.target == Some(r) && |s.hist.latched| == p + 1 && left == latency + 4
       case _ => false
  }

  /** The controller has accepted request number `p`; `left` cycles until it is installed. */
  predicate Receives(cfg: Config, s: State, r: Request, p: nat, left: int) {
    var i, core, latency := r.bs.regionId, s.core, cfg.TransferLatency(r.bs.regionId);
    && i < |core.ctrls|
    && core.ctrls[i].st == RrcSpec.State.Transfer && core.icap.target == Some(r) && |s.hist.latched| == p + 1
    && match core.icap.st
       case Wait => left == latency + 3
       case Transfer => left == core.icap.latency + 2
       case Idle => left == 1
       case _ => false
  }

  /** The ICAP is parked: it waits for an acknowledgement nobody will give. */
  predicate Parks(s: State, p: nat) {
    s.core.icap.st == IcapSpec.Wait && !s.core.icap.transferring && |s.hist.latched| <= p
  }

  // ---------------------------------------------------------------- a controller outside a transfer

  /** What such a controller's cycle does: it takes in the enqueue line, never gives up a queued
      task, keeps its module's running flag, and accepts a request exactly when it is idle with
      nothing queued and a module that was never started. */
  predicate Waits(c: RrcSpec.Rrc, own: Region, inp: RrcSpec.Inputs, c': RrcSpec.Rrc, own': Region) {
    && c'.queue == RrcSpec.Handshakes(c, inp).queue && (c'.prcAck <==> inp.enqueue.Some?)
    && Current(own').running == Current(own).running
    && (c'.st == RrcSpec.State.Transfer <==>
          c.st == RrcSpec.State.Idle && c'.queue == [] && inp.icapReq && !Current(own).running)
    && (c'.st != RrcSpec.State.Transfer ==> c'.st == RrcSpec.State.Idle)
  }

  /** A queued task is never taken: popping it would set the speed of a module that has run. */
  lemma PopFaults(c: RrcSpec.Rrc, region: Region, sim: Speed)
    requires c.queue != [] && (Current(region).st == ModuleState.Idle ==> Current(region).inSim)
    ensures var r := RrcSpec.Pop(c, region, sim);
            if Current(region).st == ModuleState.Idle then r.None? else r == Some((c, region))
  {
  }

  lemma ActWaits(c: RrcSpec.Rrc, region: Region, inp: RrcSpec.Inputs, wire: Option<Request>, sim: Speed)
    requires c.st != RrcSpec.State.Transfer && (Current(region).st == ModuleState.Idle ==> Current(region).inSim)
    ensures var r := RrcSpec.Act(c, region, inp, wire, sim);
            r.Some? ==>
              && r.value.0.queue == c.queue && r.value.0.prcAck == c.prcAck
              && Current(r.value.1).running == Current(region).running
              && (r.value.0.st == RrcSpec.State.Transfer <==>
                    c.st == RrcSpec.State.Idle && c.queue == [] && inp.icapReq && !Current(region).running)
              && (r.value.0.st != RrcSpec.State.Transfer ==> r.value.0.st == RrcSpec.State.Idle)
  {
    if c.st == RrcSpec.State.Idle && c.queue != [] {
      PopFaults(c, region, sim);
    }
  }

  lemma PreludeFacts(c: RrcSpec.Rrc, own: Region, inp: RrcSpec.Inputs)
    requires Current(own).st == ModuleState.Idle ==> Current(own).inSim
    ensures var c1, own1 := RrcSpec.Executed(RrcSpec.Handshakes(c, inp), own), RrcSpec.Advance(own);
            && c1.st == c.st && c1.queue == RrcSpec.Handshakes(c, inp).queue && (c1.prcAck <==> inp.enqueue.Some?)
            && Current(own1).running == Current(own).running
            && (Current(own1).st == ModuleState.Idle ==> Current(own1).inSim)
  {
  }

  lemma LocalWaits(c: RrcSpec.Rrc, own: Region, inp: RrcSpec.Inputs, wire: Option<Request>, sim: Speed)
    requires c.st != RrcSpec.State.Transfer && (Current(own).st == ModuleState.Idle ==> Current(own).inSim)
    ensures var r := RrcSpec.Local(c, own, inp, wire, sim);
            r.Some? ==> Waits(c, own, inp, r.value.0, r.value.1)
  {
    PreludeFacts(c, own, inp);
    ActWaits(RrcSpec.Executed(RrcSpec.Handshakes(c, inp), own), RrcSpec.Advance(own), inp, wire, sim);
  }

  ghost predicate WaitsAt(s: State, inp: Inputs, t: State, i: nat)
    requires WellSized(s.core) && SignalsFor(s.core, s.sig, inp) && WellSized(t.core)
    requires i < |s.core.ctrls| == |t.core.ctrls|
  {
    Waits(s.core.ctrls[i], s.core.regions[i], RrcInputs(s.sig, inp, i), t.core.ctrls[i], t.core.regions[i])
  }

  lemma ControllerWaits(cfg: Config, s: State, inp: Inputs, t: State, i: nat)
    requires Links(cfg, s) && SignalsFor(s.core, s.sig, inp) && Advances(cfg, s, inp, t)
    requires i < |s.core.ctrls| && s.core.ctrls[i].st != RrcSpec.State.Transfer
    ensures WaitsAt(s, inp, t, i)
  {
    assert RegionOk(cfg, s.core.ctrls[i], s.core.regions[i], i);
    LocalWaits(s.core.ctrls[i], s.core.regions[i], RrcInputs(s.sig, inp, i), s.core.icap.target, cfg.simSpeed);
    assert RrcNext(cfg, s.core, s.sig, inp, i) == Some((t.core.ctrls[i], t.core.regions[i]));
  }

  // ---------------------------------------------------------------- one cycle

  /** The transfers between latching and installing, counted. */
  lemma Behind(s: State)
    requires Chained(s)
    ensures |s.hist.latched| == |s.hist.installed|
                                + (if s.core.icap.transferring && s.core.icap.target.Some? then 1 else 0)
                                + (if Awaiting(s.core) then 1 else 0)
  {
    assert |Requests(s.hist.finished)| == |s.hist.finished|;
  }

  /** A cycle brings an offered request one cycle nearer, provided the guard lets the ICAP
      acknowledge; when it is the controller's turn, the request is accepted or stays offered. */
  lemma OfferedStep(cfg: Config, s: State, inp: Inputs, t: State, r: Request, p: nat, left: int)
    requires Control(cfg, s) && Offers(cfg, s, r, p, left)
    requires SignalsFor(s.core, s.sig, inp) && Turns(cfg, s, inp, t) && WaitsAt(s, inp, t, r.bs.regionId)
    requires s.core.icap.st == IcapSpec.Idle ==> inp.ready
    ensures t.core.icap.st != IcapSpec.Idle
    ensures if s.core.icap.st != IcapSpec.Wait then Offers(cfg, t, r, p, left - 1)
            else if t.core.ctrls[r.bs.regionId].st == RrcSpec.State.Transfer then Receives(cfg, t, r, p, left - 1)
            else Offers(cfg, t, r, p, left)
  {
    assert IcapRrc(cfg, s.core, r.bs.regionId);
    BusFromTarget(cfg, s);
  }

  /** When it is the controller's turn, exactly nothing queued and a module never started make it
      accept. */
  lemma OfferedTurn(cfg: Config, s: State, inp: Inputs, t: State, r: Request, p: nat, left: int)
    requires Control(cfg, s) && Offers(cfg, s, r, p, left)
    requires SignalsFor(s.core, s.sig, inp) && Turns(cfg, s, inp, t) && WaitsAt(s, inp, t, r.bs.regionId)
    ensures WellSized(s.core) && WellSized(t.core)
    ensures t.core.ctrls[r.bs.regionId].st == RrcSpec.State.Transfer <==>
              && s.core.icap.st == IcapSpec.Wait
              && t.core.ctrls[r.bs.regionId].queue == [] && !Running(s.core, r.bs.regionId)
  {
    assert IcapRrc(cfg, s.core, r.bs.regionId);
  }

  /** After acceptance every cycle counts down, ... */
  lemma AcceptedStep(cfg: Config, s: State, inp: Inputs, t: State, r: Request, p: nat, left: int)
    requires Control(cfg, s) && Receives(cfg, s, r, p, left) && left != 1
    requires SignalsFor(s.core, s.sig, inp) && Turns(cfg, s, inp, t)
    ensures left > 1 && Receives(cfg, t, r, p, left - 1)
  {
    var i := r.bs.regionId;
    assert IcapRrc(cfg, s.core, i);
    assert RrcSpec.Moves(s.core.ctrls[i], RrcInputs(s.sig, inp, i), s.core.icap.target, t.core.ctrls[i]);
    BusFromTarget(cfg, s);
  }

  /** ... and the last one installs. */
  lemma AcceptedLast(cfg: Config, s: State, inp: Inputs, t: State, r: Request, p: nat)
    requires Control(cfg, s) && Chained(s) && Receives(cfg, s, r, p, 1)
    requires ValidInputs(cfg, s, inp) && Turns(cfg, s, inp, t) && Placed(t)
    ensures |t.hist.installed| == p + 1 && t.hist.installed[p] == r && Holds(t.core, r)
  {
    assert IcapRrc(cfg, s.core, r.bs.regionId);
    InstallsAwaited(cfg, s, inp, t);
    Behind(s);
    assert Holds(t.core, t.hist.installed[p]);
  }

  lemma ParkedStep(cfg: Config, s: State, inp: Inputs, t: State, p: nat)
    requires Control(cfg, s) && SignalsFor(s.core, s.sig, inp) && Turns(cfg, s, inp, t) && Parks(s, p)
    ensures Parks(t, p)
  {
    BusFromTarget(cfg, s);
  }

  /** The target cannot accept: its module was started, or a task is queued. */
  predicate Refuses(core: Core, i: nat)
    requires WellSized(core) && i < |core.ctrls|
  {
    Running(core, i) || core.ctrls[i].queue != []
  }

  /** Request number `p` will not be installed: the ICAP is parked, or the region refuses it. */
  ghost predicate Stuck(cfg: Config, s: State, r: Request, p: nat) {
    Parks(s, p) ||
    (exists left :: Offers(cfg, s, r, p, left) && s.core.icap.st != IcapSpec.Idle
                    && WellSized(s.core) && Refuses(s.core, r.bs.regionId))
  }

  lemma RefusedStep(cfg: Config, s: State, inp: Inputs, t: State, r: Request, p: nat, left: int)
    requires Control(cfg, s) && SignalsFor(s.core, s.sig, inp) && Turns(cfg, s, inp, t)
    requires Offers(cfg, s, r, p, left) && s.core.icap.st != IcapSpec.Idle && WaitsAt(s, inp, t, r.bs.regionId)
    requires Refuses(s.core, r.bs.regionId)
    ensures Stuck(cfg, t, r, p)
  {
    OfferedStep(cfg, s, inp, t, r, p, left);
    OfferedTurn(cfg, s, inp, t, r, p, left);
    assert Refuses(t.core, r.bs.regionId);
    assert Offers(cfg, t, r, p, if s.core.icap.st == IcapSpec.Wait then left else left - 1);
  }

  lemma StuckStep(cfg: Config, s: State, inp: Inputs, t: State, r: Request, p: nat)
    requires Stuck(cfg, s, r, p) && Links(cfg, s) && SignalsFor(s.core, s.sig, inp)
    requires Advances(cfg, s, inp, t) && Turns(cfg, s, inp, t)
    ensures Stuck(cfg, t, r, p)
  {
    if Parks(s, p) {
      ParkedStep(cfg, s, inp, t, p);
    } else {
      var left :| Offers(cfg, s, r, p, left);
      ControllerWaits(cfg, s, inp, t, r.bs.regionId);
      RefusedStep(cfg, s, inp, t, r, p, left);
    }
  }

  lemma StuckUninstalled(cfg: Config, s: State, r: Request, p: nat)
    requires Stuck(cfg, s, r, p) && Control(cfg, s) && Chained(s)
    ensures |s.hist.installed| <= p
  {
    Behind(s);
    if !Parks(s, p) {
      var left :| Offers(cfg, s, r, p, left);
    }
  }

  // ---------------------------------------------------------------- runs

  /** The PRC has just raised or is holding a request that an idle ICAP has not answered. */
  ghost predicate Raised(cfg: Config, s: State, r: Request, p: nat) {
    && Reachable(cfg, s) && s.core.prc.st == PrcSpec.ReqIcap && s.core.icap.st == IcapSpec.Idle
    && s.core.prc.scheduled == r && |s.hist.latched| == p && r.bs.regionId < |s.core.ctrls|
  }

  /** In the cycle that answers a request: the ICAP's guard lets it acknowledge, and the target
      region's module was never started nor is being transferred. */
  predicate Servable(s: State, inp: Inputs, i: nat)
    requires WellSized(s.core) && i < |s.core.ctrls|
  {
    inp.ready && !Running(s.core, i) && s.core.ctrls[i].st != RrcSpec.State.Transfer
  }

  predicate High(inps: seq<Inputs>, i: nat, k: nat)
    requires k < |inps|
  {
    i < |inps[k].enqueue| && inps[k].enqueue[i].Some?
  }

  /** Region `i`'s enqueue line rises in cycle `k`; `high` is the line before the first cycle. */
  predicate Rises(high: bool, inps: seq<Inputs>, i: nat, k: nat)
    requires k < |inps|
  {
    High(inps, i, k) && !(if k == 0 then high else High(inps, i, k - 1))
  }

  /** Nothing is queued at region `i`, and its line does not rise in the first `k` cycles. */
  predicate Quiet(s: State, inps: seq<Inputs>, i: nat, k: nat)
    requires i < |s.core.ctrls| && k <= |inps|
  {
    s.core.ctrls[i].queue == [] && forall j :: 0 <= j < k ==> !Rises(s.core.ctrls[i].prcAck, inps, i, j)
  }

  /** Cycles from raising a request to its controller's turn, that one included. */
  const TURN: nat := 4

  /** The line seen by the controller before cycle `k`. */
  predicate Line(s: State, inps: seq<Inputs>, i: nat, k: nat)
    requires i < |s.core.ctrls| && k <= |inps|
  {
    if k == 0 then s.core.ctrls[i].prcAck else High(inps, i, k - 1)
  }

  /** `k` cycles after raising a servable request, with nothing queued on the way. */
  ghost predicate OnTheWay(cfg: Config, run: seq<State>, inps: seq<Inputs>, r: Request, p: nat, k: nat)
    requires k < |run| && k <= |inps| && run != [] && r.bs.regionId < |run[0].core.ctrls|
  {
    && WellSized(run[k].core)
    && Offers(cfg, run[k], r, p, cfg.TransferLatency(r.bs.regionId) + OVERHEAD - k)
    && !Refuses(run[k].core, r.bs.regionId)
    && (run[k].core.ctrls[r.bs.regionId].prcAck <==> Line(run[0], inps, r.bs.regionId, k))
    && (k > 0 ==> run[k].core.icap.st != IcapSpec.Idle)
  }

  /** What the next cycle makes of a request on its way. */
  predicate Proceeds(cfg: Config, s: State, inp: Inputs, t: State, r: Request, p: nat, left: int) {
    var i := r.bs.regionId;
    && i < |s.core.ctrls| && i < |inp.enqueue| && WellSized(t.core) && i < |t.core.ctrls|
    && t.core.icap.st != IcapSpec.Idle && !Running(t.core, i)
    && (t.core.ctrls[i].prcAck <==> inp.enqueue[i].Some?)
    && (t.core.ctrls[i].queue != [] <==> inp.enqueue[i].Some? && !s.core.ctrls[i].prcAck)
    && if s.core.icap.st != IcapSpec.Wait then Offers(cfg, t, r, p, left - 1)
       else if t.core.ctrls[i].queue == [] then Receives(cfg, t, r, p, left - 1)
       else Offers(cfg, t, r, p, left)
  }

  lemma WayStep(cfg: Config, s: State, inp: Inputs, t: State, r: Request, p: nat, left: int)
    requires Links(cfg, s) && SignalsFor(s.core, s.sig, inp) && Advances(cfg, s, inp, t) && Turns(cfg, s, inp, t)
    requires Offers(cfg, s, r, p, left) && !Refuses(s.core, r.bs.regionId)
    requires s.core.icap.st == IcapSpec.Idle ==> inp.ready
    ensures Proceeds(cfg, s, inp, t, r, p, left)
  {
    ControllerWaits(cfg, s, inp, t, r.bs.regionId);
    OfferedStep(cfg, s, inp, t, r, p, left);
    OfferedTurn(cfg, s, inp, t, r, p, left);
  }

  lemma WayRun(cfg: Config, run: seq<State>, inps: seq<Inputs>, r: Request, p: nat, k: nat, left: int)
    requires IsRun(cfg, run, inps) && Reachable(cfg, run[0]) && k < |inps|
    requires WellSized(run[k].core) && Offers(cfg, run[k], r, p, left) && !Refuses(run[k].core, r.bs.regionId)
    requires run[k].core.icap.st == IcapSpec.Idle ==> inps[k].ready
    ensures Proceeds(cfg, run[k], inps[k], run[k + 1], r, p, left)
  {
    RunSteps(cfg, run, inps, k);
    WayStep(cfg, run[k], inps[k], run[k + 1], r, p, left);
  }

  lemma WayNext(cfg: Config, run: seq<State>, inps: seq<Inputs>, r: Request, p: nat, k: nat)
    requires IsRun(cfg, run, inps) && Reachable(cfg, run[0]) && r.bs.regionId < |run[0].core.ctrls|
    requires k < TURN && k < |inps| && OnTheWay(cfg, run, inps, r, p, k) && (k == 0 ==> inps[0].ready)
    ensures if Rises(run[0].core.ctrls[r.bs.regionId].prcAck, inps, r.bs.regionId, k) then Stuck(cfg, run[k + 1], r, p)
            else if k == TURN - 1 then
              Receives(cfg, run[k + 1], r, p, cfg.TransferLatency(r.bs.regionId) + OVERHEAD - (k + 1))
            else OnTheWay(cfg, run, inps, r, p, k + 1)
  {
    WayRun(cfg, run, inps, r, p, k, cfg.TransferLatency(r.bs.regionId) + OVERHEAD - k);
  }

  lemma {:induction false} OnTheWayAt(cfg: Config, run: seq<State>, inps: seq<Inputs>, r: Request, p: nat, k: nat)
    requires IsRun(cfg, run, inps) && Raised(cfg, run[0], r, p) && k < TURN && k <= |inps|
    requires |inps| > 0 && Servable(run[0], inps[0], r.bs.regionId) && Quiet(run[0], inps, r.bs.regionId, k)
    ensures OnTheWay(cfg, run, inps, r, p, k)
  {
    if k > 0 {
      OnTheWayAt(cfg, run, inps, r, p, k - 1);
      WayNext(cfg, run, inps, r, p, k - 1);
    }
  }

  lemma ReceivesNext(cfg: Config, run: seq<State>, inps: seq<Inputs>, r: Request, p: nat, k: nat, left: int)
    requires IsRun(cfg, run, inps) && Reachable(cfg, run[0]) && k < |inps|
    requires Receives(cfg, run[k], r, p, left) && left != 1
    ensures left > 1 && Receives(cfg, run[k + 1], r, p, left - 1)
  {
    RunTurns(cfg, run, inps, k);
    AcceptedStep(cfg, run[k], inps[k], run[k + 1], r, p, left);
  }

  lemma ReceivesLast(cfg: Config, run: seq<State>, inps: seq<Inputs>, r: Request, p: nat, k: nat)
    requires IsRun(cfg, run, inps) && Reachable(cfg, run[0]) && k < |inps| && Receives(cfg, run[k], r, p, 1)
    ensures |run[k + 1].hist.installed| == p + 1 && run[k + 1].hist.installed[p] == r && Holds(run[k + 1].core, r)
  {
    RunReachable(cfg, run, inps, k + 1);
    AcceptedLast(cfg, run[k], inps[k], run[k + 1], r, p);
  }

  lemma {:induction false} ReceivesAt(cfg: Config, run: seq<State>, inps: seq<Inputs>, r: Request, p: nat, k: nat)
    requires IsRun(cfg, run, inps) && Raised(cfg, run[0], r, p)
    requires TURN <= k < cfg.TransferLatency(r.bs.regionId) + OVERHEAD && k <= |inps|
    requires Servable(run[0], inps[0], r.bs.regionId) && Quiet(run[0], inps, r.bs.regionId, TURN)
    ensures Receives(cfg, run[k], r, p, cfg.TransferLatency(r.bs.regionId) + OVERHEAD - k)
    decreases k
  {
    if k == TURN {
      OnTheWayAt(cfg, run, inps, r, p, k - 1);
      WayNext(cfg, run, inps, r, p, k - 1);
    } else {
      ReceivesAt(cfg, run, inps, r, p, k - 1);
      ReceivesNext(cfg, run, inps, r, p, k - 1, cfg.TransferLatency(r.bs.regionId) + OVERHEAD - (k - 1));
    }
  }

  lemma NotYet(cfg: Config, s: State, r: Request, p: nat, left: int)
    requires Control(cfg, s) && Chained(s) && (Offers(cfg, s, r, p, left) || Receives(cfg, s, r, p, left))
    ensures |s.hist.installed| <= p
  {
    Behind(s);
  }

  lemma NotYetAt(cfg: Config, run: seq<State>, inps: seq<Inputs>, r: Request, p: nat, k: nat, left: int)
    requires IsRun(cfg, run, inps) && Reachable(cfg, run[0]) && k < |run|
    requires Offers(cfg, run[k], r, p, left) || Receives(cfg, run[k], r, p, left)
    ensures |run[k].hist.installed| <= p
  {
    RunReachable(cfg, run, inps, k);
    NotYet(cfg, run[k], r, p, left);
  }

  /** A servable request to a region with nothing queued is installed after exactly the transfer
      latency plus OVERHEAD cycles. */
  lemma ExactLatency(cfg: Config, run: seq<State>, inps: seq<Inputs>, r: Request, p: nat, k: nat)
    requires IsRun(cfg, run, inps) && Raised(cfg, run[0], r, p)
    requires k <= cfg.TransferLatency(r.bs.regionId) + OVERHEAD < |run|
    requires Servable(run[0], inps[0], r.bs.regionId) && Quiet(run[0], inps, r.bs.regionId, TURN)
    ensures if k < cfg.TransferLatency(r.bs.regionId) + OVERHEAD then |run[k].hist.installed| <= p
            else |run[k].hist.installed| == p + 1 && run[k].hist.installed[p] == r && Holds(run[k].core, r)
  {
    var n := cfg.TransferLatency(r.bs.regionId) + OVERHEAD;
    if k < TURN {
      OnTheWayAt(cfg, run, inps, r, p, k);
      NotYetAt(cfg, run, inps, r, p, k, n - k);
    } else if k < n {
      ReceivesAt(cfg, run, inps, r, p, k);
      NotYetAt(cfg, run, inps, r, p, k, n - k);
    } else {
      ReceivesAt(cfg, run, inps, r, p, k - 1);
      ReceivesLast(cfg, run, inps, r, p, k - 1);
    }
  }

  lemma {:induction false} StaysStuck(cfg: Config, run: seq<State>, inps: seq<Inputs>, r: Request, p: nat, j: nat,
                                      k: nat)
    requires IsRun(cfg, run, inps) && Reachable(cfg, run[0]) && j <= k < |run| && Stuck(cfg, run[j], r, p)
    ensures Stuck(cfg, run[k], r, p)
    decreases k
  {
    if j < k {
      StaysStuck(cfg, run, inps, r, p, j, k - 1);
      StuckNext(cfg, run, inps, r, p, k - 1);
    }
  }

  lemma StuckNext(cfg: Config, run: seq<State>, inps: seq<Inputs>, r: Request, p: nat, k: nat)
    requires IsRun(cfg, run, inps) && Reachable(cfg, run[0]) && k < |inps| && Stuck(cfg, run[k], r, p)
    ensures Stuck(cfg, run[k + 1], r, p)
  {
    RunSteps(cfg, run, inps, k);
    StuckStep(cfg, run[k], inps[k], run[k + 1], r, p);
  }

  lemma CompleteController(c: RrcSpec.Rrc, own: Region, inp: RrcSpec.Inputs, wire: Option<Request>, sim: Speed)
    requires c.st == RrcSpec.State.Transfer && !inp.icapTrans
    ensures var r := RrcSpec.Local(c, own, inp, wire, sim);
            r.Some? ==> r.value.0.st == RrcSpec.State.Idle && Current(r.value.1).running
  {
    var c1, own1 := RrcSpec.Executed(RrcSpec.Handshakes(c, inp), own), RrcSpec.Advance(own);
    if wire.Some? && c.transferReq.bs.id in own1.library {
      RrcSpec.BeginStarts(c1.(installed := wire.value, st := RrcSpec.State.Idle),
                          own1.(resident := Library(c.transferReq.bs.id)), wire.value.typeId, sim);
    }
  }

  /** The cycle in which a controller completes a transfer starts its new module. */
  lemma Completes(cfg: Config, s: State, inp: Inputs, t: State, i: nat)
    requires Control(cfg, s) && SignalsFor(s.core, s.sig, inp) && Advances(cfg, s, inp, t)
    requires i < |s.core.ctrls| && s.core.ctrls[i].st == RrcSpec.State.Transfer && !s.sig.icapTrans
    ensures t.core.ctrls[i].st == RrcSpec.State.Idle && Running(t.core, i)
  {
    CompleteController(s.core.ctrls[i], s.core.regions[i], RrcInputs(s.sig, inp, i), s.core.icap.target, cfg.simSpeed);
    assert RrcNext(cfg, s.core, s.sig, inp, i) == Some((t.core.ctrls[i], t.core.regions[i]));
  }

  /** An idle ICAP answers the PRC's visible request. */
  lemma AnswerMoves(cfg: Config, s: State, inp: Inputs, t: State, r: Request, p: nat)
    requires Control(cfg, s) && SignalsFor(s.core, s.sig, inp) && Turns(cfg, s, inp, t)
    requires s.core.prc.st == PrcSpec.ReqIcap && s.core.icap.st == IcapSpec.Idle
    requires s.core.prc.scheduled == r && |s.hist.latched| == p
    ensures if inp.ready
            then && t.core.icap.st == IcapSpec.Ack && t.core.prc.st == PrcSpec.ReqIcap
                 && t.core.prc.scheduled == r && |t.hist.latched| == p
            else Parks(t, p)
  {
  }

  /** The cycle that answers a request which is not servable, or whose region has a task queued. */
  lemma Unservable(cfg: Config, s: State, inp: Inputs, t: State, r: Request, p: nat)
    requires Links(cfg, s) && SignalsFor(s.core, s.sig, inp) && Advances(cfg, s, inp, t) && Turns(cfg, s, inp, t)
    requires s.core.prc.st == PrcSpec.ReqIcap && s.core.icap.st == IcapSpec.Idle
    requires s.core.prc.scheduled == r && |s.hist.latched| == p && r.bs.regionId < |s.core.ctrls|
    requires !Servable(s, inp, r.bs.regionId) || s.core.ctrls[r.bs.regionId].queue != []
    ensures Stuck(cfg, t, r, p)
  {
    var i := r.bs.regionId;
    AnswerMoves(cfg, s, inp, t, r, p);
    if inp.ready {
      if s.core.ctrls[i].st == RrcSpec.State.Transfer {
        assert IcapRrc(cfg, s.core, i);
        Completes(cfg, s, inp, t, i);
      } else {
        ControllerWaits(cfg, s, inp, t, i);
      }
      assert Offers(cfg, t, r, p, cfg.TransferLatency(i) + 6);
    }
  }

  lemma UnservableStuck(cfg: Config, run: seq<State>, inps: seq<Inputs>, r: Request, p: nat)
    requires IsRun(cfg, run, inps) && Raised(cfg, run[0], r, p) && |inps| > 0
    requires !Servable(run[0], inps[0], r.bs.regionId) || run[0].core.ctrls[r.bs.regionId].queue != []
    ensures Stuck(cfg, run[1], r, p)
  {
    RunSteps(cfg, run, inps, 0);
    Unservable(cfg, run[0], inps[0], run[1], r, p);
  }

  /** A task queued before the controller's turn blocks the request: it waits for a module that
      never ran to become idle. */
  lemma {:induction false} LoadedStuck(cfg: Config, run: seq<State>, inps: seq<Inputs>, r: Request, p: nat, k: nat)
    requires IsRun(cfg, run, inps) && Raised(cfg, run[0], r, p) && TURN <= |inps| && k <= TURN
    requires Servable(run[0], inps[0], r.bs.regionId) && !Quiet(run[0], inps, r.bs.regionId, k)
    ensures exists j :: 0 < j <= TURN && Stuck(cfg, run[j], r, p)
    decreases k
  {
    var i := r.bs.regionId;
    if run[0].core.ctrls[i].queue != [] {
      UnservableStuck(cfg, run, inps, r, p);
    } else if k > 0 {
      if Quiet(run[0], inps, i, k - 1) {
        assert Rises(run[0].core.ctrls[i].prcAck, inps, i, k - 1);
        OnTheWayAt(cfg, run, inps, r, p, k - 1);
        WayNext(cfg, run, inps, r, p, k - 1);
      } else {
        LoadedStuck(cfg, run, inps, r, p, k - 1);
      }
    }
  }

  /** A request that is not servable when it is answered, or whose region gets a task queued before
      its controller's turn, is installed in no later cycle. */
  lemma NeverServed(cfg: Config, run: seq<State>, inps: seq<Inputs>, r: Request, p: nat, k: nat)
    requires IsRun(cfg, run, inps) && Raised(cfg, run[0], r, p) && TURN <= |inps| && TURN <= k < |run|
    requires !(Servable(run[0], inps[0], r.bs.regionId) && Quiet(run[0], inps, r.bs.regionId, TURN))
    ensures |run[k].hist.installed| <= p
  {
    var j: nat;
    if Servable(run[0], inps[0], r.bs.regionId) {
      LoadedStuck(cfg, run, inps, r, p, TURN);
      j :| 0 < j <= TURN && Stuck(cfg, run[j], r, p);
    } else {
      UnservableStuck(cfg, run, inps, r, p);
      j := 1;
    }
    StaysStuck(cfg, run, inps, r, p, j, k);
    RunReachable(cfg, run, inps, k);
    StuckUninstalled(cfg, run[k], r, p);
  }

  lemma {:induction false} InstalledGrows(cfg: Config, run: seq<State>, inps: seq<Inputs>, j: nat, k: nat)
    requires IsRun(cfg, run, inps) && Reachable(cfg, run[0]) && j <= k < |run|
    ensures run[j].hist.installed <= run[k].hist.installed
    decreases k
  {
    if j < k {
      InstalledGrows(cfg, run, inps, j, k - 1);
      InstalledNext(cfg, run, inps, k - 1);
    }
  }

  lemma InstalledNext(cfg: Config, run: seq<State>, inps: seq<Inputs>, k: nat)
    requires IsRun(cfg, run, inps) && Reachable(cfg, run[0]) && k < |inps|
    ensures run[k].hist.installed <= run[k + 1].hist.installed
  {
    RunReachable(cfg, run, inps, k + 1);
  }

  /** In every environment a raised request is ever installed if and only if it is servable in the
      cycle that answers it and no task is queued at its region up to its controller's turn; and
      then it has been installed once the transfer latency plus OVERHEAD cycles are over. */
  lemma ServedExactly(cfg: Config, run: seq<State>, inps: seq<Inputs>, r: Request, p: nat)
    requires IsRun(cfg, run, inps) && Raised(cfg, run[0], r, p)
    requires |inps| >= cfg.TransferLatency(r.bs.regionId) + OVERHEAD
    ensures var served := Servable(run[0], inps[0], r.bs.regionId) && Quiet(run[0], inps, r.bs.regionId, TURN);
            && (|run[|inps|].hist.installed| > p <==> served)
            && (served ==> run[|inps|].hist.installed[p] == r)
  {
    var n := cfg.TransferLatency(r.bs.regionId) + OVERHEAD;
    if Servable(run[0], inps[0], r.bs.regionId) && Quiet(run[0], inps, r.bs.regionId, TURN) {
      ExactLatency(cfg, run, inps, r, p, n);
      InstalledGrows(cfg, run, inps, n, |inps|);
    } else {
      NeverServed(cfg, run, inps, r, p, |inps|);
    }
  }

  // ---------------------------------------------------------------- the readiness guard as coded

  /** The guard as coded reads whether the previously addressed region is executing. */
  predicate CodedGuard(s: State, inp: Inputs) {
    && s.core.icap.target.Some?
    && s.core.icap.target.value.bs.regionId < |s.sig.executing|
    && inp.ready == s.sig.executing[s.core.icap.target.value.bs.regionId]
  }

  /** The cycle from this state evaluates the guard: an idle ICAP sees a request. */
  predicate Guarded(s: State) { s.core.icap.st == IcapSpec.Idle && s.sig.prcReq }

  /** Every cycle that evaluates the guard does so as coded; without a previous target, where the
      source dereferences a null pointer, there is no such cycle. */
  predicate CodedThroughout(run: seq<State>, inps: seq<Inputs>) {
    |inps| <= |run| && forall k :: 0 <= k < |inps| && Guarded(run[k]) ==> CodedGuard(run[k], inps[k])
  }

  /** The ICAP has never addressed anything. */
  predicate Untargeted(s: State) {
    s.core.icap.target.None? && s.core.icap.st in {IcapSpec.Init, IcapSpec.Idle} && s.hist.latched == []
  }

  lemma UntargetedStep(cfg: Config, s: State, inp: Inputs, t: State)
    requires WellSized(s.core) && SignalsFor(s.core, s.sig, inp) && Turns(cfg, s, inp, t)
    requires Untargeted(s) && !Guarded(s)
    ensures Untargeted(t)
  {
  }

  lemma UntargetedNext(cfg: Config, run: seq<State>, inps: seq<Inputs>, k: nat)
    requires IsRun(cfg, run, inps) && Reachable(cfg, run[0]) && k < |inps|
    requires Untargeted(run[k]) && !Guarded(run[k])
    ensures Untargeted(run[k + 1])
  {
    RunTurns(cfg, run, inps, k);
    UntargetedStep(cfg, run[k], inps[k], run[k + 1]);
  }

  lemma {:induction false} CodedUntargeted(cfg: Config, run: seq<State>, inps: seq<Inputs>, k: nat)
    requires IsRun(cfg, run, inps) && Reachable(cfg, run[0]) && Untargeted(run[0])
    requires CodedThroughout(run, inps) && k < |run|
    ensures Untargeted(run[k])
  {
    if k > 0 {
      CodedUntargeted(cfg, run, inps, k - 1);
      assert !Guarded(run[k - 1]);
      UntargetedNext(cfg, run, inps, k - 1);
    }
  }

  /** With the guard as coded from power-up on, the first request cannot be answered: nothing is
      ever latched or installed, and a run reaches a visible request only in its last state. */
  lemma CodedNeverServes(cfg: Config, n: nat, run: seq<State>, inps: seq<Inputs>, k: nat)
    requires Simulates(cfg, n, run, inps) && CodedThroughout(run, inps) && k < |run|
    ensures run[k].core.icap.target.None? && run[k].hist.latched == [] && run[k].hist.installed == []
    ensures Guarded(run[k]) ==> k == |inps|
  {
    InitialReachable(cfg, n);
    CodedUntargeted(cfg, run, inps, k);
    Delivery(cfg, n, run, inps, k);
  }

  /** Once some transfer has been latched, the coded guard serves a request if and only if the
      region of the previous transfer is executing in the cycle that answers it, the request's own
      region never held a started module, and no task is queued there before its turn. */
  lemma ServedAsCoded(cfg: Config, run: seq<State>, inps: seq<Inputs>, r: Request, p: nat)
    requires IsRun(cfg, run, inps) && Raised(cfg, run[0], r, p)
    requires |inps| >= cfg.TransferLatency(r.bs.regionId) + OVERHEAD
    requires CodedGuard(run[0], inps[0])
    ensures |run[|inps|].hist.installed| > p <==>
              && run[0].sig.executing[run[0].core.icap.target.value.bs.regionId]
              && !Running(run[0].core, r.bs.regionId)
              && Quiet(run[0], inps, r.bs.regionId, TURN)
  {
    ServedExactly(cfg, run, inps, r, p);
    var prev, i := run[0].core.icap.target.value.bs.regionId, r.bs.regionId;
    assert RegionOk(cfg, run[0].core.ctrls[prev], run[0].core.regions[prev], prev);
    assert IcapRrc(cfg, run[0].core, i);
  }
}

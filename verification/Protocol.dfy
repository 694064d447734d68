/** The joint invariant of the PRC, the ICAP and the region controllers, and the two facts it
    gives at once for every cycle: no wire is written and read in the same cycle, and hence the
    components of a cycle may step in any order. */
module Protocol {
  import opened Types
  import opened Modules
  import opened Configuration
  import opened Machine
  import PrcSpec
  import IcapSpec
  import RrcSpec

  // ---------------------------------------------------------------- the invariant

  ghost predicate Shape(cfg: Config, s: State) {
    && WellSized(s.core)
    && s.sig == Latch(s.core)
    && forall i :: 0 <= i < |s.core.ctrls| ==> i in cfg.specs
  }

  ghost predicate Addressed(cfg: Config, core: Core, r: Request) {
    cfg.ValidRequest(r) && r.bs.regionId < |core.ctrls|
  }

  /** The four-phase handshake between the PRC and the ICAP. */
  ghost predicate PrcIcap(cfg: Config, core: Core) {
    && (core.prc.req <==> core.prc.st == PrcSpec.ReqIcap)
    && (core.icap.prcAck <==> core.icap.st == IcapSpec.Ack)
    && (core.icap.st == IcapSpec.Ack ==> core.prc.st in {PrcSpec.ReqIcap, PrcSpec.TaskSchedule})
    && (core.prc.st == PrcSpec.ReqIcap || core.icap.st == IcapSpec.Ack ==> Addressed(cfg, core, core.prc.scheduled))
  }

  /** The region the ICAP last addressed. */
  predicate IsTarget(core: Core, i: nat) {
    core.icap.target.Some? && core.icap.target.value.bs.regionId == i
  }

  ghost predicate IcapState(cfg: Config, core: Core) {
    && (core.icap.transferring ==>
          && core.icap.target.Some? && Addressed(cfg, core, core.icap.target.value)
          && core.icap.st in {IcapSpec.Wait, IcapSpec.Transfer})
    && (core.icap.st == IcapSpec.Transfer ==>
          core.icap.transferring && core.ctrls[core.icap.target.value.bs.regionId].st == RrcSpec.Transfer)
  }

  /** The handshake between the ICAP and controller `i`, and the completion level. */
  ghost predicate IcapRrc(cfg: Config, core: Core, i: nat)
    requires WellSized(core) && i < |core.ctrls|
  {
    var c := core.ctrls[i];
    && (core.icap.prrReq[i] <==> core.icap.st == IcapSpec.Wait && core.icap.transferring && IsTarget(core, i))
    && (c.st == RrcSpec.State.Transfer ==>
          && IsTarget(core, i)
          && Addressed(cfg, core, core.icap.target.value)
          && c.transferReq == core.icap.target.value
          && (core.icap.transferring || (core.icap.st == IcapSpec.Idle && !c.icapAck))
          && (core.icap.st == IcapSpec.Wait ==> c.icapAck))
    && (c.icapAck ==> c.st == RrcSpec.State.Transfer && core.icap.transferring)
  }

  predicate Pristine(m: Module) { m.st == Vacant && !m.running && !m.inSim && m.timestep == 0 }

  /** Controller `i` against the module its table entry refers to, shared with the library. */
  ghost predicate RegionOk(cfg: Config, c: RrcSpec.Rrc, region: Region, i: nat)
    requires i in cfg.specs
  {
    && region.library.Keys == cfg.specs[i].Keys
    && (forall m :: m in region.library ==> region.library[m].id == m && region.library[m].regionId == i)
    && (forall m :: m in region.library && region.resident != Library(m) ==> Pristine(region.library[m]))
    && (c.executing <==> Current(region).st == Exec)
    && (match region.resident
        case Placeholder(p) =>
          && p.id == NO_ID && p.regionId == i && !p.running
          && p.st == (if c.st == RrcSpec.State.Transfer then ModuleState.Transfer else Vacant)
        case Library(m) =>
          && c.st != RrcSpec.State.Transfer
          && region.library[m].running
          && region.library[m].st in {ModuleState.Idle, Exec}
          && (region.library[m].st == ModuleState.Idle ==> region.library[m].inSim))
  }

  /** The control part of the invariant: all handshakes and levels. */
  ghost predicate Control(cfg: Config, s: State) {
    && Shape(cfg, s)
    && PrcIcap(cfg, s.core)
    && IcapState(cfg, s.core)
    && (forall i :: 0 <= i < |s.core.ctrls| ==> IcapRrc(cfg, s.core, i))
  }

  ghost predicate Links(cfg: Config, s: State) {
    && Control(cfg, s)
    && (forall i :: 0 <= i < |s.core.ctrls| ==> RegionOk(cfg, s.core.ctrls[i], s.core.regions[i], i))
  }

  // ---------------------------------------------------------------- unlatched wires

  predicate WritesScheduled(core: Core) { core.prc.st == PrcSpec.RrSchedule }

  predicate ReadsScheduled(core: Core, sig: Signals) { core.icap.st == IcapSpec.Ack && !sig.prcReq }

  predicate WritesTarget(core: Core, sig: Signals) { core.icap.st == IcapSpec.Ack && !sig.prcReq }

  predicate ReadsTarget(core: Core, sig: Signals, inp: Inputs, i: nat)
    requires i < |core.ctrls| && SignalsFor(core, sig, inp)
  {
    Reads(RrcSpec.Handshakes(core.ctrls[i], RrcInputs(sig, inp, i)), RrcInputs(sig, inp, i))
  }

  /** A controller reads the transfer wire to accept a request and to complete a transfer. */
  predicate Reads(c: RrcSpec.Rrc, inp: RrcSpec.Inputs) {
    (c.st == RrcSpec.State.Idle && c.queue == [] && inp.icapReq) || (c.st == RrcSpec.State.Transfer && !inp.icapTrans)
  }

  /** No cycle both writes and reads one of the two wires that are not latched. */
  lemma NoWireRace(cfg: Config, s: State, inp: Inputs)
    requires Control(cfg, s) && SignalsFor(s.core, s.sig, inp)
    ensures !(WritesScheduled(s.core) && ReadsScheduled(s.core, s.sig))
    ensures forall i :: 0 <= i < |s.core.ctrls| && ReadsTarget(s.core, s.sig, inp, i) ==> !WritesTarget(s.core, s.sig)
  {
    forall i | 0 <= i < |s.core.ctrls| && ReadsTarget(s.core, s.sig, inp, i)
      ensures !WritesTarget(s.core, s.sig)
    {
      assert IcapRrc(cfg, s.core, i);
    }
  }

  /** A controller that reads the transfer wire finds a request for its own region. */
  lemma OwnRegion(cfg: Config, s: State, inp: Inputs, i: nat)
    requires Control(cfg, s) && SignalsFor(s.core, s.sig, inp) && i < |s.core.ctrls|
    ensures ReadsTarget(s.core, s.sig, inp, i) ==>
              && s.core.icap.target.Some? && s.core.icap.target.value.bs.regionId == i
              && (s.core.ctrls[i].st == RrcSpec.State.Transfer ==>
                    s.core.ctrls[i].transferReq == s.core.icap.target.value)
  {
    assert IcapRrc(cfg, s.core, i);
  }

  // ---------------------------------------------------------------- one component at a time

  function PrcNext(core: Core, sig: Signals, inp: Inputs): Option<PrcSpec.Prc> {
    PrcSpec.Step(core.prc, sig.icapAck, sig.icapTrans, inp.prc)
  }

  function IcapNext(cfg: Config, core: Core, sig: Signals, inp: Inputs): Option<IcapSpec.Icap> {
    IcapSpec.Step(cfg, core.icap, sig.prcReq, sig.prrAck, inp.ready, core.prc.scheduled)
  }

  function RrcNext(cfg: Config, core: Core, sig: Signals, inp: Inputs, i: nat): Option<(RrcSpec.Rrc, Region)>
    requires WellSized(core) && SignalsFor(core, sig, inp) && i < |core.ctrls|
  {
    RrcSpec.Local(core.ctrls[i], core.regions[i], RrcInputs(sig, inp, i), core.icap.target, cfg.simSpeed)
  }

  /** Component `id` would fault if it stepped first in this cycle. */
  predicate Fails(cfg: Config, core: Core, sig: Signals, inp: Inputs, id: nat)
    requires WellSized(core) && SignalsFor(core, sig, inp) && id < |core.ctrls| + 2
  {
    if id == 0 then PrcNext(core, sig, inp).None?
    else if id == 1 then IcapNext(cfg, core, sig, inp).None?
    else RrcNext(cfg, core, sig, inp, id - 2).None?
  }

  /** In `mid` exactly the components in `done` have stepped, each as from the cycle's start. */
  ghost predicate Blended(cfg: Config, core: Core, sig: Signals, inp: Inputs, done: set<nat>, mid: Core)
    requires WellSized(core) && SignalsFor(core, sig, inp)
  {
    && WellSized(mid) && |mid.ctrls| == |core.ctrls|
    && (if 0 in done then PrcNext(core, sig, inp) == Some(mid.prc) else mid.prc == core.prc)
    && (if 1 in done then IcapNext(cfg, core, sig, inp) == Some(mid.icap) else mid.icap == core.icap)
    && (forall i :: 0 <= i < |core.ctrls| ==> BlendedAt(cfg, core, sig, inp, done, mid, i))
  }

  ghost predicate BlendedAt(cfg: Config, core: Core, sig: Signals, inp: Inputs, done: set<nat>, mid: Core, i: nat)
    requires WellSized(core) && SignalsFor(core, sig, inp)
    requires WellSized(mid) && i < |mid.ctrls| == |core.ctrls|
  {
    if i + 2 in done then RrcNext(cfg, core, sig, inp, i) == Some((mid.ctrls[i], mid.regions[i]))
    else mid.ctrls[i] == core.ctrls[i] && mid.regions[i] == core.regions[i]
  }

  /** A controller that reads the transfer wire finds it as it was at the cycle's start. */
  lemma TargetKept(cfg: Config, s: State, inp: Inputs, done: set<nat>, mid: Core, i: nat)
    requires Control(cfg, s) && SignalsFor(s.core, s.sig, inp)
    requires Blended(cfg, s.core, s.sig, inp, done, mid) && i < |s.core.ctrls|
    ensures ReadsTarget(s.core, s.sig, inp, i) ==> mid.icap.target == s.core.icap.target
  {
    NoWireRace(cfg, s, inp);
  }

  lemma LocalTarget(cfg: Config, s: State, inp: Inputs, i: nat, wire: Option<Request>)
    requires Control(cfg, s) && SignalsFor(s.core, s.sig, inp) && i < |s.core.ctrls|
    requires ReadsTarget(s.core, s.sig, inp, i) ==> wire == s.core.icap.target
    ensures var c1 := RrcSpec.Executed(RrcSpec.Handshakes(s.core.ctrls[i], RrcInputs(s.sig, inp, i)),
                                       s.core.regions[i]);
            RrcSpec.TargetRegion(i, c1, RrcInputs(s.sig, inp, i), wire) == i
  {
    OwnRegion(cfg, s, inp, i);
  }

  lemma LocalWire(c: RrcSpec.Rrc, own: Region, inp: RrcSpec.Inputs, wire: Option<Request>, wire': Option<Request>,
                  sim: Speed)
    requires Reads(RrcSpec.Handshakes(c, inp), inp) ==> wire == wire'
    ensures RrcSpec.Local(c, own, inp, wire, sim) == RrcSpec.Local(c, own, inp, wire', sim)
  {
  }

  /** A controller's cycle is local, and the same whether or not the ICAP has stepped. */
  lemma RrcBlended(cfg: Config, s: State, inp: Inputs, done: set<nat>, mid: Core, i: nat)
    requires Control(cfg, s) && SignalsFor(s.core, s.sig, inp)
    requires Blended(cfg, s.core, s.sig, inp, done, mid) && i < |s.core.ctrls| && i + 2 !in done
    ensures var r := RrcSpec.Step(i, mid.ctrls[i], mid.regions, RrcInputs(s.sig, inp, i), mid.icap.target,
                                  cfg.simSpeed);
            match RrcNext(cfg, s.core, s.sig, inp, i)
            case None => r.None?
            case Some((c, region)) => r == Some((c, mid.regions[i := region]))
  {
    assert BlendedAt(cfg, s.core, s.sig, inp, done, mid, i);
    TargetKept(cfg, s, inp, done, mid, i);
    LocalTarget(cfg, s, inp, i, mid.icap.target);
    var rin := RrcInputs(s.sig, inp, i);
    LocalWire(s.core.ctrls[i], s.core.regions[i], rin, mid.icap.target, s.core.icap.target, cfg.simSpeed);
    RrcSpec.StepIsLocal(i, mid.ctrls[i], mid.regions, rin, mid.icap.target, cfg.simSpeed);
  }

  lemma PrcBlended(cfg: Config, s: State, inp: Inputs, done: set<nat>, mid: Core)
    requires Control(cfg, s) && SignalsFor(s.core, s.sig, inp)
    requires Blended(cfg, s.core, s.sig, inp, done, mid) && 0 !in done
    ensures PrcNext(mid, s.sig, inp) == PrcNext(s.core, s.sig, inp)
  {
  }

  lemma IcapBlended(cfg: Config, s: State, inp: Inputs, done: set<nat>, mid: Core)
    requires Control(cfg, s) && SignalsFor(s.core, s.sig, inp)
    requires Blended(cfg, s.core, s.sig, inp, done, mid) && 1 !in done
    ensures IcapNext(cfg, mid, s.sig, inp) == IcapNext(cfg, s.core, s.sig, inp)
  {
    NoWireRace(cfg, s, inp);
  }

  /** Component `id` steps in `mid` as it would at the cycle's start; the others stay. */
  predicate StepsAlone(cfg: Config, core: Core, sig: Signals, inp: Inputs, mid: Core, id: nat, r: Option<Core>)
    requires WellSized(core) && SignalsFor(core, sig, inp) && WellSized(mid) && |mid.ctrls| == |core.ctrls|
    requires id < |core.ctrls| + 2
  {
    if id == 0 then
      var n := PrcNext(core, sig, inp);
      r == if n.None? then None else Some(mid.(prc := n.value))
    else if id == 1 then
      var n := IcapNext(cfg, core, sig, inp);
      r == if n.None? then None else Some(mid.(icap := n.value))
    else
      var n, i := RrcNext(cfg, core, sig, inp, id - 2), id - 2;
      r == if n.None? then None
           else Some(mid.(ctrls := mid.ctrls[i := n.value.0], regions := mid.regions[i := n.value.1]))
  }

  lemma StepAlone(cfg: Config, s: State, inp: Inputs, done: set<nat>, mid: Core, id: nat)
    requires Control(cfg, s) && SignalsFor(s.core, s.sig, inp)
    requires Blended(cfg, s.core, s.sig, inp, done, mid) && id < |s.core.ctrls| + 2 && id !in done
    ensures StepsAlone(cfg, s.core, s.sig, inp, mid, id, StepOne(cfg, mid, s.sig, inp, id))
  {
    if id == 0 {
      PrcBlended(cfg, s, inp, done, mid);
    } else if id == 1 {
      IcapBlended(cfg, s, inp, done, mid);
    } else {
      RrcBlended(cfg, s, inp, done, mid, id - 2);
    }
  }

  lemma AloneBlended(cfg: Config, core: Core, sig: Signals, inp: Inputs, done: set<nat>, mid: Core, id: nat,
                     after: Core)
    requires WellSized(core) && SignalsFor(core, sig, inp)
    requires Blended(cfg, core, sig, inp, done, mid) && id < |core.ctrls| + 2 && id !in done
    requires StepsAlone(cfg, core, sig, inp, mid, id, Some(after))
    ensures Blended(cfg, core, sig, inp, done + {id}, after)
  {
    forall i | 0 <= i < |core.ctrls|
      ensures BlendedAt(cfg, core, sig, inp, done + {id}, after, i)
    {
      AloneBlendedAt(cfg, core, sig, inp, done, mid, id, after, i);
    }
  }

  lemma AloneBlendedAt(cfg: Config, core: Core, sig: Signals, inp: Inputs, done: set<nat>, mid: Core, id: nat,
                       after: Core, i: nat)
    requires WellSized(core) && SignalsFor(core, sig, inp) && WellSized(mid) && |mid.ctrls| == |core.ctrls|
    requires i < |core.ctrls| && BlendedAt(cfg, core, sig, inp, done, mid, i) && id < |core.ctrls| + 2
    requires StepsAlone(cfg, core, sig, inp, mid, id, Some(after))
    ensures WellSized(after) && |after.ctrls| == |core.ctrls|
    ensures BlendedAt(cfg, core, sig, inp, done + {id}, after, i)
  {
  }

  lemma StepBlended(cfg: Config, s: State, inp: Inputs, done: set<nat>, mid: Core, id: nat)
    requires Control(cfg, s) && SignalsFor(s.core, s.sig, inp)
    requires Blended(cfg, s.core, s.sig, inp, done, mid) && id < |s.core.ctrls| + 2 && id !in done
    ensures StepOne(cfg, mid, s.sig, inp, id).None? <==> Fails(cfg, s.core, s.sig, inp, id)
    ensures StepOne(cfg, mid, s.sig, inp, id).Some? ==>
              Blended(cfg, s.core, s.sig, inp, done + {id}, StepOne(cfg, mid, s.sig, inp, id).value)
  {
    StepAlone(cfg, s, inp, done, mid, id);
    if StepOne(cfg, mid, s.sig, inp, id).Some? {
      AloneBlended(cfg, s.core, s.sig, inp, done, mid, id, StepOne(cfg, mid, s.sig, inp, id).value);
    }
  }

  ghost function Elements(order: seq<nat>): set<nat> { set id | id in order }

  predicate Distinct(order: seq<nat>) {
    forall a, b :: 0 <= a < b < |order| ==> order[a] != order[b]
  }

  /** Every component exactly once. */
  ghost predicate IsSchedule(order: seq<nat>, n: nat) {
    && Distinct(order)
    && InRange(order, n)
    && forall id: nat :: id < n + 2 ==> id in order
  }

  /** Some component of the order would fault. */
  ghost predicate FailsIn(cfg: Config, core: Core, sig: Signals, inp: Inputs, order: seq<nat>)
    requires WellSized(core) && SignalsFor(core, sig, inp) && InRange(order, |core.ctrls|)
  {
    exists k :: 0 <= k < |order| && Fails(cfg, core, sig, inp, order[k])
  }

  lemma FailsInLast(cfg: Config, core: Core, sig: Signals, inp: Inputs, order: seq<nat>)
    requires WellSized(core) && SignalsFor(core, sig, inp) && InRange(order, |core.ctrls|) && order != []
    ensures FailsIn(cfg, core, sig, inp, order) <==>
              || FailsIn(cfg, core, sig, inp, order[..|order| - 1])
              || Fails(cfg, core, sig, inp, order[|order| - 1])
  {
    var init := order[..|order| - 1];
    if FailsIn(cfg, core, sig, inp, init) {
      var j :| 0 <= j < |init| && Fails(cfg, core, sig, inp, init[j]);
      assert Fails(cfg, core, sig, inp, order[j]);
    }
    if FailsIn(cfg, core, sig, inp, order) {
      var j :| 0 <= j < |order| && Fails(cfg, core, sig, inp, order[j]);
      assert j < |init| ==> init[j] == order[j];
    }
  }

  lemma {:induction false} RunBlended(cfg: Config, s: State, inp: Inputs, order: seq<nat>)
    requires Control(cfg, s) && SignalsFor(s.core, s.sig, inp)
    requires Distinct(order) && InRange(order, |s.core.ctrls|)
    ensures var r := RunOrder(cfg, s.core, s.sig, inp, order);
            && (r.None? <==> FailsIn(cfg, s.core, s.sig, inp, order))
            && (r.Some? ==> Blended(cfg, s.core, s.sig, inp, Elements(order), r.value))
    decreases |order|
  {
    if order != [] {
      var k := |order| - 1;
      RunBlended(cfg, s, inp, order[..k]);
      LastElement(order);
      FailsInLast(cfg, s.core, s.sig, inp, order);
      var mid := RunOrder(cfg, s.core, s.sig, inp, order[..k]);
      if mid.Some? {
        StepBlended(cfg, s, inp, Elements(order[..k]), mid.value, order[k]);
      }
    }
  }

  lemma LastElement(order: seq<nat>)
    requires order != [] && Distinct(order)
    ensures var k := |order| - 1;
            Elements(order) == Elements(order[..k]) + {order[k]} && order[k] !in Elements(order[..k])
  {
    assert order == order[..|order| - 1] + [order[|order| - 1]];
  }

  lemma BlendedUnique(cfg: Config, s: State, inp: Inputs, done: set<nat>, a: Core, b: Core)
    requires WellSized(s.core) && SignalsFor(s.core, s.sig, inp)
    requires Blended(cfg, s.core, s.sig, inp, done, a) && Blended(cfg, s.core, s.sig, inp, done, b)
    ensures a == b
  {
    forall i | 0 <= i < |s.core.ctrls|
      ensures a.ctrls[i] == b.ctrls[i] && a.regions[i] == b.regions[i]
    {
      assert BlendedAt(cfg, s.core, s.sig, inp, done, a, i);
      assert BlendedAt(cfg, s.core, s.sig, inp, done, b, i);
    }
    assert a.ctrls == b.ctrls && a.regions == b.regions;
  }

  /** Any schedule faults exactly when some component faults, and otherwise advances them all. */
  lemma RunSchedule(cfg: Config, s: State, inp: Inputs, order: seq<nat>)
    requires Control(cfg, s) && SignalsFor(s.core, s.sig, inp) && IsSchedule(order, |s.core.ctrls|)
    ensures var r := RunOrder(cfg, s.core, s.sig, inp, order);
            && (r.None? <==> exists id: nat :: id < |s.core.ctrls| + 2 && Fails(cfg, s.core, s.sig, inp, id))
            && (r.Some? ==> Blended(cfg, s.core, s.sig, inp, Elements(SourceOrder(|s.core.ctrls|)), r.value))
  {
    var n := |s.core.ctrls|;
    RunBlended(cfg, s, inp, order);
    SourceSchedule(n);
    assert Elements(order) == Elements(SourceOrder(n));
    forall id: nat | id < n + 2 && Fails(cfg, s.core, s.sig, inp, id)
      ensures FailsIn(cfg, s.core, s.sig, inp, order)
    {
      assert id in order;
    }
  }

  /** Stepping the components of a cycle in any order gives the outcome of the source's order. */
  lemma OrderIndependent(cfg: Config, s: State, inp: Inputs, order: seq<nat>)
    requires Control(cfg, s) && SignalsFor(s.core, s.sig, inp) && IsSchedule(order, |s.core.ctrls|)
    ensures RunOrder(cfg, s.core, s.sig, inp, order)
         == RunOrder(cfg, s.core, s.sig, inp, SourceOrder(|s.core.ctrls|))
  {
    var n := |s.core.ctrls|;
    var a, b := RunOrder(cfg, s.core, s.sig, inp, order), RunOrder(cfg, s.core, s.sig, inp, SourceOrder(n));
    SourceSchedule(n);
    RunSchedule(cfg, s, inp, order);
    RunSchedule(cfg, s, inp, SourceOrder(n));
    if a.Some? && b.Some? {
      BlendedUnique(cfg, s, inp, Elements(SourceOrder(n)), a.value, b.value);
    }
  }

  lemma SourceSchedule(n: nat)
    ensures IsSchedule(SourceOrder(n), n)
  {
    forall id | 0 <= id < n + 2
      ensures id in SourceOrder(n)
    {
      assert SourceOrder(n)[id] == id;
    }
  }

  /** What one fault-free cycle does to each component, as from the cycle's start. */
  ghost predicate Advances(cfg: Config, s: State, inp: Inputs, t: State)
    requires WellSized(s.core) && SignalsFor(s.core, s.sig, inp)
  {
    && WellSized(t.core) && |t.core.ctrls| == |s.core.ctrls|
    && PrcNext(s.core, s.sig, inp) == Some(t.core.prc)
    && IcapNext(cfg, s.core, s.sig, inp) == Some(t.core.icap)
    && (forall i :: 0 <= i < |s.core.ctrls| ==>
          RrcNext(cfg, s.core, s.sig, inp, i) == Some((t.core.ctrls[i], t.core.regions[i])))
    && t.sig == Latch(t.core)
    && t.hist == Record(s.hist, s.core, t.core)
  }

  /** The control part of a cycle: the PRC's and the ICAP's moves, and how the controllers'
      handshakes, states and requests move. */
  ghost predicate Turns(cfg: Config, s: State, inp: Inputs, t: State)
    requires WellSized(s.core) && SignalsFor(s.core, s.sig, inp)
  {
    && WellSized(t.core) && |t.core.ctrls| == |s.core.ctrls|
    && PrcNext(s.core, s.sig, inp) == Some(t.core.prc)
    && IcapNext(cfg, s.core, s.sig, inp) == Some(t.core.icap)
    && (forall i :: 0 <= i < |s.core.ctrls| ==>
          RrcSpec.Moves(s.core.ctrls[i], RrcInputs(s.sig, inp, i), s.core.icap.target, t.core.ctrls[i]))
    && t.sig == Latch(t.core)
    && t.hist == Record(s.hist, s.core, t.core)
  }

  lemma AdvancesTurns(cfg: Config, s: State, inp: Inputs, t: State)
    requires WellSized(s.core) && SignalsFor(s.core, s.sig, inp) && Advances(cfg, s, inp, t)
    ensures Turns(cfg, s, inp, t)
  {
    forall i | 0 <= i < |s.core.ctrls|
      ensures RrcSpec.Moves(s.core.ctrls[i], RrcInputs(s.sig, inp, i), s.core.icap.target, t.core.ctrls[i])
    {
      RrcSpec.LocalMoves(s.core.ctrls[i], s.core.regions[i], RrcInputs(s.sig, inp, i), s.core.icap.target,
                         cfg.simSpeed);
    }
  }

  /** A cycle faults exactly when some component faults; otherwise all advance at once. */
  lemma CycleAdvances(cfg: Config, s: State, inp: Inputs)
    requires Control(cfg, s) && SignalsFor(s.core, s.sig, inp)
    ensures var r := Cycle(cfg, s, inp);
            && (r.None? <==> exists id: nat :: id < |s.core.ctrls| + 2 && Fails(cfg, s.core, s.sig, inp, id))
            && (r.Some? ==> Advances(cfg, s, inp, r.value))
  {
    var n := |s.core.ctrls|;
    SourceSchedule(n);
    RunSchedule(cfg, s, inp, SourceOrder(n));
    var r := Cycle(cfg, s, inp);
    if r.Some? {
      assert forall id: nat :: id < n + 2 ==> SourceOrder(n)[id] == id;
      forall i | 0 <= i < n
        ensures RrcNext(cfg, s.core, s.sig, inp, i) == Some((r.value.core.ctrls[i], r.value.core.regions[i]))
      {
        assert BlendedAt(cfg, s.core, s.sig, inp, Elements(SourceOrder(n)), r.value.core, i);
      }
    }
  }
}

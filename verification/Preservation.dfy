/** Every fault-free cycle keeps the joint invariant. */
module Preservation {
  import opened Types
  import opened Modules
  import opened Configuration
  import opened Machine
  import opened Protocol
  import IcapSpec
  import RrcSpec

  lemma BusFromTarget(cfg: Config, s: State)
    requires Control(cfg, s)
    ensures s.sig.prrAck ==> s.core.icap.transferring
    ensures s.sig.prrAck <==> exists i :: 0 <= i < |s.core.ctrls| && s.core.ctrls[i].icapAck
    ensures s.sig.prrAck ==> s.core.ctrls[s.core.icap.target.value.bs.regionId].icapAck
  {
    if s.sig.prrAck {
      var i :| 0 <= i < |s.core.ctrls| && s.core.ctrls[i].icapAck;
      assert IcapRrc(cfg, s.core, i);
    }
  }

  lemma KeepsPrcIcap(cfg: Config, s: State, inp: Inputs, t: State)
    requires Control(cfg, s) && ValidInputs(cfg, s, inp) && Turns(cfg, s, inp, t)
    ensures PrcIcap(cfg, t.core)
  {
  }

  lemma KeepsIcapState(cfg: Config, s: State, inp: Inputs, t: State)
    requires Control(cfg, s) && ValidInputs(cfg, s, inp) && Turns(cfg, s, inp, t)
    ensures IcapState(cfg, t.core)
  {
    BusFromTarget(cfg, s);
    if t.core.icap.st == IcapSpec.Transfer {
      var i := s.core.icap.target.value.bs.regionId;
      assert IcapRrc(cfg, s.core, i);
    }
  }

  lemma KeepsIcapRrc(cfg: Config, s: State, inp: Inputs, t: State, i: nat)
    requires Control(cfg, s) && ValidInputs(cfg, s, inp) && Turns(cfg, s, inp, t) && i < |s.core.ctrls|
    ensures IcapRrc(cfg, t.core, i)
  {
    BusFromTarget(cfg, s);
    if s.sig.prrAck {
      assert IcapRrc(cfg, s.core, s.core.icap.target.value.bs.regionId);
    }
    MovesKeep(cfg, s.core, s.sig, inp, t.core, i);
  }

  lemma MovesKeep(cfg: Config, core: Core, sig: Signals, inp: Inputs, core': Core, i: nat)
    requires WellSized(core) && SignalsFor(core, sig, inp) && i < |core.ctrls|
    requires WellSized(core') && |core'.ctrls| == |core.ctrls|
    requires PrcIcap(cfg, core) && IcapState(cfg, core) && IcapRrc(cfg, core, i)
    requires sig.prcReq == core.prc.req && sig.icapReq == core.icap.prrReq && sig.icapTrans == core.icap.transferring
    requires sig.prrAck ==> core.icap.transferring && core.ctrls[core.icap.target.value.bs.regionId].icapAck
    requires sig.prrAck ==> IcapRrc(cfg, core, core.icap.target.value.bs.regionId)
    requires core.ctrls[i].icapAck ==> sig.prrAck
    requires IcapNext(cfg, core, sig, inp) == Some(core'.icap)
    requires RrcSpec.Moves(core.ctrls[i], RrcInputs(sig, inp, i), core.icap.target, core'.ctrls[i])
    ensures IcapRrc(cfg, core', i)
  {
  }

  /** The handshakes and the module's own step keep a region consistent. */
  lemma PreludeKeeps(cfg: Config, c: RrcSpec.Rrc, own: Region, inp: RrcSpec.Inputs, i: nat)
    requires i in cfg.specs && RegionOk(cfg, c, own, i)
    ensures RegionOk(cfg, RrcSpec.Executed(RrcSpec.Handshakes(c, inp), own), RrcSpec.Advance(own), i)
  {
  }

  lemma BeginKeeps(cfg: Config, c: RrcSpec.Rrc, region: Region, typeId: string, sim: Speed, i: nat)
    requires i in cfg.specs && c.st == RrcSpec.State.Idle && region.resident.Library?
    requires region.library.Keys == cfg.specs[i].Keys
    requires forall m :: m in region.library ==> region.library[m].id == m && region.library[m].regionId == i
    requires forall m :: m in region.library && region.resident != Library(m) ==> Pristine(region.library[m])
    ensures var r := RrcSpec.Begin(c, region, typeId, sim);
            r.Some? ==> RegionOk(cfg, r.value.0, r.value.1, i)
  {
  }

  lemma ActKeeps(cfg: Config, c: RrcSpec.Rrc, own: Region, inp: RrcSpec.Inputs, wire: Option<Request>, i: nat)
    requires i in cfg.specs && RegionOk(cfg, c, own, i)
    ensures var r := RrcSpec.Act(c, own, inp, wire, cfg.simSpeed);
            r.Some? ==> RegionOk(cfg, r.value.0, r.value.1, i)
  {
    match c.st
    case Init =>
    case Idle =>
      if c.queue != [] && c.queue[0].typeId.Some? && Current(own).st == ModuleState.Idle {
        BeginKeeps(cfg, c.(queue := c.queue[1..]), own, c.queue[0].typeId.value, cfg.simSpeed, i);
      }
    case Transfer =>
      if !inp.icapTrans && c.transferReq.bs.id in own.library && wire.Some? {
        BeginKeeps(cfg, c.(installed := wire.value, st := RrcSpec.State.Idle),
                   own.(resident := Library(c.transferReq.bs.id)), wire.value.typeId, cfg.simSpeed, i);
      }
  }

  lemma KeepsRegion(cfg: Config, s: State, inp: Inputs, t: State, i: nat)
    requires Links(cfg, s) && ValidInputs(cfg, s, inp) && Advances(cfg, s, inp, t) && i < |s.core.ctrls|
    ensures RegionOk(cfg, t.core.ctrls[i], t.core.regions[i], i)
  {
    var c, own, rin := s.core.ctrls[i], s.core.regions[i], RrcInputs(s.sig, inp, i);
    assert RegionOk(cfg, c, own, i);
    PreludeKeeps(cfg, c, own, rin, i);
    ActKeeps(cfg, RrcSpec.Executed(RrcSpec.Handshakes(c, rin), own), RrcSpec.Advance(own), rin, s.core.icap.target, i);
    assert RrcNext(cfg, s.core, s.sig, inp, i) == Some((t.core.ctrls[i], t.core.regions[i]));
  }

  lemma KeepsLinks(cfg: Config, s: State, inp: Inputs, t: State)
    requires Links(cfg, s) && ValidInputs(cfg, s, inp) && Advances(cfg, s, inp, t)
    ensures Links(cfg, t)
  {
    AdvancesTurns(cfg, s, inp, t);
    KeepsPrcIcap(cfg, s, inp, t);
    KeepsIcapState(cfg, s, inp, t);
    forall i | 0 <= i < |t.core.ctrls|
      ensures IcapRrc(cfg, t.core, i) && RegionOk(cfg, t.core.ctrls[i], t.core.regions[i], i)
    {
      KeepsIcapRrc(cfg, s, inp, t, i);
      KeepsRegion(cfg, s, inp, t, i);
    }
  }
}

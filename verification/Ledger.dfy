/** What the histories of requested, latched, finished and installed transfers are in every
    reachable state, and that every fault-free cycle keeps it so. */
module Ledger {
  import opened Types
  import opened Modules
  import opened Configuration
  import opened Machine
  import opened Protocol
  import opened Preservation
  import PrcSpec
  import IcapSpec
  import RrcSpec

  function Requests(fs: seq<Finished>): seq<Request> {
    seq(|fs|, k requires 0 <= k < |fs| => fs[k].request)
  }

  /** A request has been raised that the ICAP has not latched. */
  predicate Pending(core: Core) { core.prc.st == PrcSpec.ReqIcap || core.icap.st == IcapSpec.Ack }

  /** A countdown is over but the controller has not yet installed the bitstream. */
  predicate Awaiting(core: Core) {
    && !core.icap.transferring && core.icap.target.Some?
    && core.icap.target.value.bs.regionId < |core.ctrls|
    && core.ctrls[core.icap.target.value.bs.regionId].st == RrcSpec.State.Transfer
  }

  function Tail(b: bool, r: Option<Request>): seq<Request> {
    if b && r.Some? then [r.value] else []
  }

  /** Each history is the next one plus at most the transfer in flight between the two. */
  ghost predicate Chained(s: State) {
    && s.hist.requested == s.hist.latched + Tail(Pending(s.core), Some(s.core.prc.scheduled))
    && s.hist.latched == Requests(s.hist.finished) + Tail(s.core.icap.transferring, s.core.icap.target)
    && Requests(s.hist.finished) == s.hist.installed + Tail(Awaiting(s.core), s.core.icap.target)
  }

  /** The countdown in progress, and the length of every countdown that is over. */
  ghost predicate Timed(cfg: Config, s: State) {
    && (s.core.icap.st == IcapSpec.Transfer ==>
          && s.core.icap.target.Some?
          && s.hist.spent + s.core.icap.latency == cfg.TransferLatency(s.core.icap.target.value.bs.regionId))
    && (forall k :: 0 <= k < |s.hist.finished| ==>
          s.hist.finished[k].cycles == cfg.TransferLatency(s.hist.finished[k].request.bs.regionId) + 1)
  }

  ghost predicate InstalledAt(s: State, i: nat) {
    exists k :: 0 <= k < |s.hist.installed| && s.hist.installed[k].bs.regionId == i
  }

  predicate Holds(core: Core, r: Request) {
    && r.bs.regionId < |core.regions|
    && core.regions[r.bs.regionId].resident == Library(r.bs.id)
  }

  /** The region table shows exactly the installed bitstreams, each in a region of its own. */
  ghost predicate Placed(s: State) {
    && (forall k :: 0 <= k < |s.hist.installed| ==> Holds(s.core, s.hist.installed[k]))
    && (forall j, k :: 0 <= j < k < |s.hist.installed| ==>
          s.hist.installed[j].bs.regionId != s.hist.installed[k].bs.regionId)
    && (forall i :: 0 <= i < |s.core.regions| && s.core.regions[i].resident.Library? ==> InstalledAt(s, i))
  }

  ghost predicate Balanced(cfg: Config, s: State) {
    Chained(s) && Timed(cfg, s) && Placed(s)
  }

  predicate InstallsNow(a: Core, b: Core, i: nat)
    requires i < |a.ctrls| == |b.ctrls|
  {
    a.ctrls[i].st == RrcSpec.State.Transfer && b.ctrls[i].st == RrcSpec.State.Idle
  }

  lemma {:induction false} InstallsAtMost(a: Core, b: Core, n: nat, i: nat)
    requires n <= |a.ctrls| == |b.ctrls| && i < |a.ctrls|
    requires forall j :: 0 <= j < |a.ctrls| && j != i ==> !InstallsNow(a, b, j)
    ensures Installs(a.ctrls, b.ctrls, n) == if i < n && InstallsNow(a, b, i) then [b.ctrls[i].installed] else []
  {
    if n > 0 {
      InstallsAtMost(a, b, n - 1, i);
      assert n - 1 != i ==> !InstallsNow(a, b, n - 1);
    }
  }

  lemma {:induction false} InstallsNone(a: Core, b: Core, n: nat)
    requires n <= |a.ctrls| == |b.ctrls|
    requires forall j :: 0 <= j < |a.ctrls| ==> !InstallsNow(a, b, j)
    ensures Installs(a.ctrls, b.ctrls, n) == []
  {
    if n > 0 {
      InstallsNone(a, b, n - 1);
      assert !InstallsNow(a, b, n - 1);
    }
  }

  /** Only the controller the ICAP is waiting for installs, and then always. */
  lemma InstallsAwaited(cfg: Config, s: State, inp: Inputs, t: State)
    requires Control(cfg, s) && ValidInputs(cfg, s, inp) && Turns(cfg, s, inp, t)
    ensures Installs(s.core.ctrls, t.core.ctrls, |s.core.ctrls|) == Tail(Awaiting(s.core), s.core.icap.target)
    ensures forall i :: 0 <= i < |s.core.ctrls| && InstallsNow(s.core, t.core, i) ==>
              Awaiting(s.core) && IsTarget(s.core, i)
    ensures Awaiting(s.core) ==>
              && InstallsNow(s.core, t.core, s.core.icap.target.value.bs.regionId)
              && t.core.ctrls[s.core.icap.target.value.bs.regionId].installed == s.core.icap.target.value
  {
    forall i | 0 <= i < |s.core.ctrls|
      ensures InstallsNow(s.core, t.core, i) <==> Awaiting(s.core) && IsTarget(s.core, i)
      ensures InstallsNow(s.core, t.core, i) ==> t.core.ctrls[i].installed == s.core.icap.target.value
    {
      assert IcapRrc(cfg, s.core, i);
      assert RrcSpec.Moves(s.core.ctrls[i], RrcInputs(s.sig, inp, i), s.core.icap.target, t.core.ctrls[i]);
    }
    if Awaiting(s.core) {
      InstallsAtMost(s.core, t.core, |s.core.ctrls|, s.core.icap.target.value.bs.regionId);
    } else {
      InstallsNone(s.core, t.core, |s.core.ctrls|);
    }
  }

  lemma KeepsChained(cfg: Config, s: State, inp: Inputs, t: State)
    requires Control(cfg, s) && Chained(s) && ValidInputs(cfg, s, inp) && Turns(cfg, s, inp, t)
    ensures Chained(t)
  {
    KeepsRequested(cfg, s, inp, t);
    KeepsLatched(cfg, s, inp, t);
    KeepsFinished(cfg, s, inp, t);
  }

  lemma KeepsRequested(cfg: Config, s: State, inp: Inputs, t: State)
    requires Control(cfg, s) && Chained(s) && ValidInputs(cfg, s, inp) && Turns(cfg, s, inp, t)
    ensures t.hist.requested == t.hist.latched + Tail(Pending(t.core), Some(t.core.prc.scheduled))
  {
    BusFromTarget(cfg, s);
  }

  lemma KeepsLatched(cfg: Config, s: State, inp: Inputs, t: State)
    requires Control(cfg, s) && Chained(s) && ValidInputs(cfg, s, inp) && Turns(cfg, s, inp, t)
    ensures t.hist.latched == Requests(t.hist.finished) + Tail(t.core.icap.transferring, t.core.icap.target)
  {
    BusFromTarget(cfg, s);
    if t.hist.finished != s.hist.finished {
      assert Requests(t.hist.finished) == Requests(s.hist.finished) + [s.core.icap.target.value];
    }
  }

  lemma KeepsFinished(cfg: Config, s: State, inp: Inputs, t: State)
    requires Control(cfg, s) && Chained(s) && ValidInputs(cfg, s, inp) && Turns(cfg, s, inp, t)
    ensures Requests(t.hist.finished) == t.hist.installed + Tail(Awaiting(t.core), t.core.icap.target)
  {
    BusFromTarget(cfg, s);
    InstallsAwaited(cfg, s, inp, t);
    if t.hist.finished != s.hist.finished {
      assert Requests(t.hist.finished) == Requests(s.hist.finished) + [s.core.icap.target.value];
    }
    AwaitingMoves(cfg, s, inp, t);
  }

  /** A transfer is awaited exactly from the cycle that ends its countdown to the next one. */
  lemma AwaitingMoves(cfg: Config, s: State, inp: Inputs, t: State)
    requires Control(cfg, s) && ValidInputs(cfg, s, inp) && Turns(cfg, s, inp, t)
    ensures Awaiting(t.core) <==> s.core.icap.st == IcapSpec.Transfer && t.core.icap.st == IcapSpec.Idle
    ensures Awaiting(t.core) ==> t.core.icap.target == s.core.icap.target
  {
    BusFromTarget(cfg, s);
    if t.core.icap.target.Some? && t.core.icap.target.value.bs.regionId < |t.core.ctrls| {
      var i := t.core.icap.target.value.bs.regionId;
      assert IcapRrc(cfg, s.core, i);
      assert RrcSpec.Moves(s.core.ctrls[i], RrcInputs(s.sig, inp, i), s.core.icap.target, t.core.ctrls[i]);
    }
  }

  lemma KeepsTimed(cfg: Config, s: State, inp: Inputs, t: State)
    requires Control(cfg, s) && Timed(cfg, s) && ValidInputs(cfg, s, inp) && Turns(cfg, s, inp, t)
    ensures Timed(cfg, t)
  {
    BusFromTarget(cfg, s);
  }

  /** A cycle changes which module a region holds only by installing the awaited one there. */
  lemma ResidentMoves(cfg: Config, s: State, inp: Inputs, t: State, i: nat)
    requires Links(cfg, s) && ValidInputs(cfg, s, inp) && Advances(cfg, s, inp, t) && i < |s.core.ctrls|
    ensures Awaiting(s.core) && IsTarget(s.core, i) ==>
              && s.core.regions[i].resident.Placeholder?
              && t.core.regions[i].resident == Library(s.core.icap.target.value.bs.id)
    ensures !(Awaiting(s.core) && IsTarget(s.core, i)) ==>
              RrcSpec.SameResident(s.core.regions[i], t.core.regions[i])
  {
    assert IcapRrc(cfg, s.core, i);
    assert RegionOk(cfg, s.core.ctrls[i], s.core.regions[i], i);
    assert RrcNext(cfg, s.core, s.sig, inp, i) == Some((t.core.ctrls[i], t.core.regions[i]));
    RrcSpec.LocalResident(s.core.ctrls[i], s.core.regions[i], RrcInputs(s.sig, inp, i), s.core.icap.target,
                          cfg.simSpeed);
  }

  /** The one region whose install is awaited turns from its placeholder to that module; all
      other regions keep the module they hold. */
  ghost predicate Replaces(a: Core, b: Core) {
    && WellSized(a) && WellSized(b) && |b.regions| == |a.regions|
    && forall i :: 0 <= i < |a.regions| ==>
         if Awaiting(a) && IsTarget(a, i) then
           a.regions[i].resident.Placeholder? && b.regions[i].resident == Library(a.icap.target.value.bs.id)
         else RrcSpec.SameResident(a.regions[i], b.regions[i])
  }

  lemma PlacedHolds(s: State, t: State, k: nat)
    requires Placed(s) && Replaces(s.core, t.core) && k < |t.hist.installed|
    requires t.hist.installed == s.hist.installed + Tail(Awaiting(s.core), s.core.icap.target)
    ensures Holds(t.core, t.hist.installed[k])
  {
    if k < |s.hist.installed| {
      assert Holds(s.core, s.hist.installed[k]);
    }
  }

  lemma PlacedOnce(s: State, t: State, j: nat, k: nat)
    requires Placed(s) && Replaces(s.core, t.core) && j < k < |t.hist.installed|
    requires t.hist.installed == s.hist.installed + Tail(Awaiting(s.core), s.core.icap.target)
    ensures t.hist.installed[j].bs.regionId != t.hist.installed[k].bs.regionId
  {
    assert Holds(s.core, s.hist.installed[j]);
  }

  lemma PlacedAll(s: State, t: State, i: nat)
    requires Placed(s) && Replaces(s.core, t.core) && i < |t.core.regions| && t.core.regions[i].resident.Library?
    requires t.hist.installed == s.hist.installed + Tail(Awaiting(s.core), s.core.icap.target)
    ensures InstalledAt(t, i)
  {
    var n := |s.hist.installed|;
    if Awaiting(s.core) && IsTarget(s.core, i) {
      assert t.hist.installed[n].bs.regionId == i;
    } else {
      var k :| 0 <= k < n && s.hist.installed[k].bs.regionId == i;
      assert t.hist.installed[k].bs.regionId == i;
    }
  }

  lemma KeepsPlaced(cfg: Config, s: State, inp: Inputs, t: State)
    requires Links(cfg, s) && Placed(s) && ValidInputs(cfg, s, inp) && Advances(cfg, s, inp, t)
    ensures Placed(t)
  {
    AdvancesTurns(cfg, s, inp, t);
    InstallsAwaited(cfg, s, inp, t);
    forall i | 0 <= i < |s.core.regions|
      ensures if Awaiting(s.core) && IsTarget(s.core, i) then
                s.core.regions[i].resident.Placeholder?
                && t.core.regions[i].resident == Library(s.core.icap.target.value.bs.id)
              else RrcSpec.SameResident(s.core.regions[i], t.core.regions[i])
    {
      ResidentMoves(cfg, s, inp, t, i);
    }
    PlacedGrows(s, t);
  }

  lemma PlacedGrows(s: State, t: State)
    requires Placed(s) && Replaces(s.core, t.core)
    requires t.hist.installed == s.hist.installed + Tail(Awaiting(s.core), s.core.icap.target)
    ensures Placed(t)
  {
    forall k | 0 <= k < |t.hist.installed|
      ensures Holds(t.core, t.hist.installed[k])
      ensures forall j :: 0 <= j < k ==> t.hist.installed[j].bs.regionId != t.hist.installed[k].bs.regionId
    {
      PlacedHolds(s, t, k);
      forall j | 0 <= j < k
        ensures t.hist.installed[j].bs.regionId != t.hist.installed[k].bs.regionId
      {
        PlacedOnce(s, t, j, k);
      }
    }
    forall i | 0 <= i < |t.core.regions| && t.core.regions[i].resident.Library?
      ensures InstalledAt(t, i)
    {
      PlacedAll(s, t, i);
    }
  }

  lemma KeepsBalanced(cfg: Config, s: State, inp: Inputs, t: State)
    requires Links(cfg, s) && Balanced(cfg, s) && ValidInputs(cfg, s, inp) && Advances(cfg, s, inp, t)
    ensures Balanced(cfg, t)
  {
    AdvancesTurns(cfg, s, inp, t);
    KeepsChained(cfg, s, inp, t);
    KeepsTimed(cfg, s, inp, t);
    KeepsPlaced(cfg, s, inp, t);
  }
}

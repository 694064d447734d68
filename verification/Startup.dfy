/** From power-up to the first request, and what becomes of it. */
module Startup {
  import opened Types
  import opened Configuration
  import opened Machine
  import opened Protocol
  import opened Safety
  import opened Progress
  import opened Decisions
  import PrcSpec
  import IcapSpec
  import RrcSpec

  /** The first `k` cycles are over, nothing has been requested: the PRC has gone on to its first
      question, and the ICAP waits for it. */
  predicate Waking(s: State, k: nat) {
    && s.core.icap.st == (if k == 0 then IcapSpec.Init else IcapSpec.Idle) && s.core.icap.target.None?
    && s.core.prc.st == (if k == 0 then PrcSpec.Init else if k == 1 then PrcSpec.TaskSchedule else PrcSpec.RrSchedule)
    && s.hist.latched == []
  }

  lemma WakingStep(cfg: Config, s: State, inp: Inputs, t: State, k: nat)
    requires Control(cfg, s) && SignalsFor(s.core, s.sig, inp) && Turns(cfg, s, inp, t)
    requires Waking(s, k) && k < 2
    ensures Waking(t, k + 1)
  {
  }

  /** The PRC's first request: an idle ICAP has not answered it yet. */
  lemma FirstRaised(cfg: Config, s: State, inp: Inputs, t: State, r: Request)
    requires Control(cfg, s) && SignalsFor(s.core, s.sig, inp) && Turns(cfg, s, inp, t) && Reachable(cfg, t)
    requires ValidInputs(cfg, s, inp) && Waking(s, 2) && RequestOf(s, inp) == [r]
    ensures r.bs.regionId < |s.core.ctrls| && Progress.Raised(cfg, t, r, 0)
  {
  }

  /** Region `i`'s enqueue line was low in the first `k` cycles. */
  predicate Low(inps: seq<Inputs>, i: nat, k: nat)
    requires k <= |inps|
  {
    forall j :: 0 <= j < k ==> !High(inps, i, j)
  }

  /** A controller that was not asked for a transfer: a task is queued exactly if its line was high. */
  predicate Unasked(s: State, inps: seq<Inputs>, i: nat, k: nat)
    requires k <= |inps|
  {
    && WellSized(s.core) && i < |s.core.ctrls|
    && s.core.ctrls[i].st != RrcSpec.State.Transfer && !Running(s.core, i)
    && (s.core.ctrls[i].queue == [] <==> Low(inps, i, k))
    && (Low(inps, i, k) ==> !s.core.ctrls[i].prcAck)
  }

  lemma LineUnseen(cfg: Config, s: State, i: nat)
    requires Control(cfg, s) && s.core.icap.target.None? && i < |s.sig.icapReq|
    ensures !s.sig.icapReq[i]
  {
    assert IcapRrc(cfg, s.core, i);
  }

  lemma LowNext(inps: seq<Inputs>, i: nat, k: nat)
    requires k < |inps|
    ensures Low(inps, i, k + 1) <==> Low(inps, i, k) && !High(inps, i, k)
  {
  }

  lemma UnaskedWaits(s: State, inps: seq<Inputs>, t: State, i: nat, k: nat)
    requires k < |inps| && Unasked(s, inps, i, k) && SignalsFor(s.core, s.sig, inps[k]) && !s.sig.icapReq[i]
    requires WellSized(t.core) && |t.core.ctrls| == |s.core.ctrls| && WaitsAt(s, inps[k], t, i)
    ensures Unasked(t, inps, i, k + 1)
  {
    LowNext(inps, i, k);
  }

  lemma UnaskedStep(cfg: Config, s: State, inps: seq<Inputs>, t: State, i: nat, k: nat)
    requires k < |inps| && Links(cfg, s) && SignalsFor(s.core, s.sig, inps[k]) && Advances(cfg, s, inps[k], t)
    requires Unasked(s, inps, i, k) && s.core.icap.target.None?
    ensures Unasked(t, inps, i, k + 1)
  {
    ControllerWaits(cfg, s, inps[k], t, i);
    LineUnseen(cfg, s, i);
    UnaskedWaits(s, inps, t, i, k);
  }

  /** After power-up the PRC asks its first question in the third cycle; the ICAP waits for it. */
  lemma {:induction false} PowerUp(cfg: Config, n: nat, run: seq<State>, inps: seq<Inputs>, k: nat)
    requires Simulates(cfg, n, run, inps) && k < |run| && k <= 2
    ensures Waking(run[k], k)
  {
    if k > 0 {
      var j := k - 1;
      PowerUp(cfg, n, run, inps, j);
      InitialReachable(cfg, n);
      RunTurns(cfg, run, inps, j);
      WakingStep(cfg, run[j], inps[j], run[j + 1], j);
    }
  }

  lemma UnaskedAt(cfg: Config, run: seq<State>, inps: seq<Inputs>, i: nat, k: nat)
    requires IsRun(cfg, run, inps) && Reachable(cfg, run[0]) && k < |inps|
    requires Unasked(run[k], inps, i, k) && run[k].core.icap.target.None?
    ensures Unasked(run[k + 1], inps, i, k + 1)
  {
    RunSteps(cfg, run, inps, k);
    UnaskedStep(cfg, run[k], inps, run[k + 1], i, k);
  }

  /** No module is started and no transfer accepted in the first three cycles. */
  lemma {:induction false} StaysUnasked(cfg: Config, n: nat, run: seq<State>, inps: seq<Inputs>, i: nat, k: nat)
    requires Simulates(cfg, n, run, inps) && k < |run| && k <= 3 && i < n
    ensures Unasked(run[k], inps, i, k)
  {
    if k > 0 {
      var j := k - 1;
      StaysUnasked(cfg, n, run, inps, i, j);
      InitialReachable(cfg, n);
      PowerUp(cfg, n, run, inps, j);
      UnaskedAt(cfg, run, inps, i, j);
    }
  }

  lemma FirstRequest(cfg: Config, n: nat, run: seq<State>, inps: seq<Inputs>, r: Request)
    requires Simulates(cfg, n, run, inps) && |inps| > 2 && RequestOf(run[2], inps[2]) == [r]
    ensures r.bs.regionId < n && Progress.Raised(cfg, run[3], r, 0)
  {
    PowerUp(cfg, n, run, inps, 2);
    SimulationReachable(cfg, n, run, inps, 2);
    RaisedNext(cfg, run, inps, r);
  }

  lemma RaisedNext(cfg: Config, run: seq<State>, inps: seq<Inputs>, r: Request)
    requires IsRun(cfg, run, inps) && Reachable(cfg, run[0]) && |inps| > 2
    requires Waking(run[2], 2) && RequestOf(run[2], inps[2]) == [r]
    ensures r.bs.regionId < |run[2].core.ctrls| && Progress.Raised(cfg, run[3], r, 0)
  {
    RunSteps(cfg, run, inps, 2);
    RunReachable(cfg, run, inps, 3);
    FirstRaised(cfg, run[2], inps[2], run[3], r);
  }

  lemma Suffix(cfg: Config, run: seq<State>, inps: seq<Inputs>, k: nat)
    requires IsRun(cfg, run, inps) && k <= |inps|
    ensures IsRun(cfg, run[k..], inps[k..])
  {
    forall j | 0 <= j < |inps[k..]|
      ensures TransitionAt(cfg, run[k..], inps[k..], j)
    {
      assert TransitionAt(cfg, run, inps, k + j);
    }
  }

  lemma {:induction false} StaysLow(inps: seq<Inputs>, i: nat, k: nat, m: nat)
    requires k + m <= |inps| && Low(inps, i, k)
    requires forall j :: 0 <= j < m ==> !Rises(false, inps[k..], i, j)
    ensures Low(inps, i, k + m)
  {
    if m > 0 {
      StaysLow(inps, i, k, m - 1);
      assert High(inps[k..], i, m - 1) <==> High(inps, i, k + m - 1);
      assert m > 1 ==> (High(inps[k..], i, m - 2) <==> High(inps, i, k + m - 2));
      assert !Rises(false, inps[k..], i, m - 1);
      LowNext(inps, i, k + m - 1);
    }
  }

  /** From a low line, nothing queued: no rise in the next cycles is a low line throughout. */
  lemma QuietIsLow(s: State, inps: seq<Inputs>, i: nat, k: nat)
    requires k + TURN <= |inps| && Unasked(s, inps, i, k)
    ensures Quiet(s, inps[k..], i, TURN) <==> Low(inps, i, k + TURN)
  {
    if Quiet(s, inps[k..], i, TURN) {
      StaysLow(inps, i, k, TURN);
    }
    if Low(inps, i, k + TURN) {
      forall j | 0 <= j < TURN
        ensures !Rises(s.core.ctrls[i].prcAck, inps[k..], i, j)
      {
        assert !High(inps, i, k + j) && inps[k..][j] == inps[k + j];
      }
      assert Low(inps, i, k);
    }
  }

  /** Anything is installed in the end exactly if `served`, and then this request first, between
      these two. */
  predicate Outcome(before: History, after: History, end: History, r: Request, served: bool) {
    && (|end.installed| > 0 <==> served)
    && (served ==> before.installed == [] && after.installed == [r])
  }

  /** The request is servable and nothing gets queued before its turn. */
  predicate Accepted(s: State, inps: seq<Inputs>, i: nat)
    requires TURN <= |inps|
  {
    WellSized(s.core) && i < |s.core.ctrls| && Servable(s, inps[0], i) && Quiet(s, inps, i, TURN)
  }

  lemma SuffixAt(run: seq<State>, latency: nat, end: nat)
    requires latency + 10 <= end < |run|
    ensures run[3..][latency + 6] == run[latency + 9] && run[3..][latency + 7] == run[latency + 10]
    ensures run[3..][end - 3] == run[end]
  {
  }

  lemma InstalledThen(cfg: Config, run: seq<State>, inps: seq<Inputs>, r: Request, latency: nat)
    requires IsRun(cfg, run, inps) && Progress.Raised(cfg, run[0], r, 0)
    requires latency == cfg.TransferLatency(r.bs.regionId) && latency + 7 <= |inps|
    requires Accepted(run[0], inps, r.bs.regionId)
    ensures run[latency + 7].hist.installed == [r]
  {
    ExactLatency(cfg, run, inps, r, 0, latency + 7);
  }

  lemma NotBefore(cfg: Config, run: seq<State>, inps: seq<Inputs>, r: Request, latency: nat)
    requires IsRun(cfg, run, inps) && Progress.Raised(cfg, run[0], r, 0)
    requires latency == cfg.TransferLatency(r.bs.regionId) && latency + 7 <= |inps|
    requires Accepted(run[0], inps, r.bs.regionId)
    ensures run[latency + 6].hist.installed == []
  {
    ExactLatency(cfg, run, inps, r, 0, latency + 6);
  }

  lemma EverInstalled(cfg: Config, run: seq<State>, inps: seq<Inputs>, r: Request, latency: nat)
    requires IsRun(cfg, run, inps) && Progress.Raised(cfg, run[0], r, 0)
    requires latency == cfg.TransferLatency(r.bs.regionId) && latency + 7 <= |inps|
    ensures |run[|inps|].hist.installed| > 0 <==> Accepted(run[0], inps, r.bs.regionId)
  {
    ServedExactly(cfg, run, inps, r, 0);
  }

  lemma RaisedOutcome(cfg: Config, run: seq<State>, inps: seq<Inputs>, r: Request, latency: nat)
    requires IsRun(cfg, run, inps) && Progress.Raised(cfg, run[0], r, 0)
    requires latency == cfg.TransferLatency(r.bs.regionId) && latency + 7 <= |inps|
    ensures Outcome(run[latency + 6].hist, run[latency + 7].hist, run[|inps|].hist, r,
                    Accepted(run[0], inps, r.bs.regionId))
  {
    EverInstalled(cfg, run, inps, r, latency);
    if Accepted(run[0], inps, r.bs.regionId) {
      InstalledThen(cfg, run, inps, r, latency);
      NotBefore(cfg, run, inps, r, latency);
    }
  }

  lemma AcceptedLater(s: State, inps: seq<Inputs>, i: nat)
    requires |inps| >= 7 && Unasked(s, inps, i, 3)
    ensures Accepted(s, inps[3..], i) <==> inps[3].ready && Low(inps, i, 7)
  {
    QuietIsLow(s, inps, i, 3);
  }

  lemma ServedLater(cfg: Config, run: seq<State>, inps: seq<Inputs>, r: Request, latency: nat)
    requires IsRun(cfg, run, inps) && latency == cfg.TransferLatency(r.bs.regionId) && latency + 10 <= |inps|
    requires Progress.Raised(cfg, run[3], r, 0)
    ensures Outcome(run[3..][latency + 6].hist, run[3..][latency + 7].hist, run[3..][|inps| - 3].hist, r,
                    Accepted(run[3], inps[3..], r.bs.regionId))
  {
    Suffix(cfg, run, inps, 3);
    RaisedOutcome(cfg, run[3..], inps[3..], r, latency);
  }

  lemma ServedFrom(cfg: Config, run: seq<State>, inps: seq<Inputs>, r: Request, latency: nat)
    requires IsRun(cfg, run, inps) && latency == cfg.TransferLatency(r.bs.regionId) && latency + 10 <= |inps|
    requires Progress.Raised(cfg, run[3], r, 0) && Unasked(run[3], inps, r.bs.regionId, 3)
    ensures Outcome(run[latency + 9].hist, run[latency + 10].hist, run[|inps|].hist, r,
                    inps[3].ready && Low(inps, r.bs.regionId, 7))
  {
    ServedLater(cfg, run, inps, r, latency);
    SuffixAt(run, latency, |inps|);
    AcceptedLater(run[3], inps, r.bs.regionId);
  }

  /** The first request of a simulation. It is raised at the end of the third cycle; its bitstream
      is ever installed if and only if the guard lets the ICAP acknowledge in the fourth cycle and
      the region's enqueue line stays low in the first seven; then it is installed in exactly
      cycle latency plus 10, and not before. */
  lemma FirstServed(cfg: Config, n: nat, run: seq<State>, inps: seq<Inputs>, r: Request, latency: nat)
    requires Simulates(cfg, n, run, inps) && |inps| > 2 && RequestOf(run[2], inps[2]) == [r]
    requires latency == cfg.TransferLatency(r.bs.regionId) && latency + 10 <= |inps|
    ensures Outcome(run[latency + 9].hist, run[latency + 10].hist, run[|inps|].hist, r,
                    inps[3].ready && Low(inps, r.bs.regionId, 7))
  {
    FirstRequest(cfg, n, run, inps, r);
    StaysUnasked(cfg, n, run, inps, r.bs.regionId, 3);
    ServedFrom(cfg, run, inps, r, latency);
  }
}

/** `ProtocolSimulator::run`: commit to a trace, optionally tamper with one opened step, verify samples. */
module Simulator {
  import opened Prelude
  import opened Domain
  import opened Validation
  import opened Training

  datatype SimulationRequest = SimulationRequest(
    steps: u64, samples: u64, seed: u64, samplingEntropy: u64, tamperStep: Option<u64>)

  datatype VerificationOutcome = Accepted | Rejected(failedIndices: seq<nat>)

  datatype SimulationReport = SimulationReport(
    committedTrace: TrainingTrace,
    openedTrace: TrainingTrace,
    sampledIndices: seq<u64>,
    samples: seq<VerificationSample>,
    outcome: VerificationOutcome,
    tamperApplied: Option<u64>)

  function TamperStep(e: TraceEntry): TraceEntry {
    var w := e.step.stateAfter.weights;
    e.(step := e.step.(stateAfter := ModelState(w[0 := Saturate(w[0] as int + 1)])))
  }

  /** The indices of the samples that were not accepted, in order. */
  function FailedIndices(samples: seq<VerificationSample>): seq<nat> {
    if samples == [] then []
    else (if samples[0].Accepted() then [] else [samples[0].index]) + FailedIndices(samples[1..])
  }

  function VerifyAll(r: Rules, seed: u64, indices: seq<u64>, committed: seq<TraceEntry>, opening: seq<TraceEntry>):
    (samples: seq<VerificationSample>)
    requires forall i :: 0 <= i < |indices| ==> indices[i] < |committed| && indices[i] < |opening|
  {
    if indices == [] then []
    else [VerifySample(r, seed, indices[0], committed[indices[0]], opening[indices[0]])]
         + VerifyAll(r, seed, indices[1..], committed, opening)
  }

  /** The source indexes the trace with the sampler's answers, so the sampler must stay in range. */
  ghost function Run(r: Rules, q: SimulationRequest): SimulationReport
    requires SamplerSound(r)
  {
    var committed := HonestTrace(r, GENESIS_MODEL, q.seed, q.steps);
    var applied := if q.tamperStep.Some? && q.tamperStep.value < q.steps then q.tamperStep else None;
    var entries := committed.entries;
    var tampered :=
      if applied.Some? then entries[applied.value := TamperStep(entries[applied.value])] else entries;
    var indices := r.sample(|entries|, q.samples, committed.root, q.samplingEntropy);
    assert IsSample(indices, |entries|, q.samples);
    var samples := VerifyAll(r, q.seed, indices, entries, tampered);
    var failed := FailedIndices(samples);
    SimulationReport(committed, committed.(entries := tampered), indices, samples,
                     if failed == [] then Accepted else Rejected(failed), applied)
  }

  lemma HonestEntryVerifies(r: Rules, m: ModelState, seed: u64, i: u64)
    ensures VerifySample(r, seed, i, HonestEntry(r, m, seed, i), HonestEntry(r, m, seed, i)).Accepted()
  {
    var step := Deterministic(r.mixer, seed, i, StateAfter(r, m, seed, i));
    assert HonestStep(r, m, seed, i) == step;
  }

  /** A tampered step is caught exactly when the tampering changed it. */
  lemma TamperedEntryVerdict(r: Rules, m: ModelState, seed: u64, i: u64)
    requires i < TWO64 - 1
    ensures VerifySample(r, seed, i, HonestEntry(r, m, seed, i), TamperStep(HonestEntry(r, m, seed, i))).Accepted()
            <==> StateAfter(r, m, seed, i + 1).weights[0] == TWO63 - 1
  {
    var before := StateAfter(r, m, seed, i);
    var step := Deterministic(r.mixer, seed, i, before);
    var honest := HonestEntry(r, m, seed, i);
    assert honest.step == step;
    var w := step.stateAfter.weights;
    assert StateAfter(r, m, seed, i + 1).weights == w;
    HonestEntryVerifies(r, m, seed, i);
    if w[0] == TWO63 - 1 {
      assert w[0 := w[0]] == w;
      assert TamperStep(honest) == honest;
    } else {
      assert TamperStep(honest).step.stateAfter.weights[0] == w[0] as int + 1;
      assert TamperStep(honest).step != step;
    }
  }

  /** Only position `k` can fail, so the failed indices are `[k]` if it was sampled and fails, and none otherwise. */
  lemma {:induction false} OnlyOneCanFail(
      r: Rules, seed: u64, indices: seq<u64>, committed: seq<TraceEntry>, opening: seq<TraceEntry>, k: u64)
    requires forall i :: 0 <= i < |indices| ==> indices[i] < |committed| && indices[i] < |opening|
    requires forall i, j :: 0 <= i < j < |indices| ==> indices[i] < indices[j]
    requires forall i: u64 :: i < |committed| && i < |opening| && i != k ==>
               VerifySample(r, seed, i, committed[i], opening[i]).Accepted()
    ensures FailedIndices(VerifyAll(r, seed, indices, committed, opening)) ==
              if k in indices && !VerifySample(r, seed, k, committed[k], opening[k]).Accepted() then [k as nat] else []
  {
    if indices == [] {
    } else {
      var all := VerifyAll(r, seed, indices, committed, opening);
      assert all[1..] == VerifyAll(r, seed, indices[1..], committed, opening);
      OnlyOneCanFail(r, seed, indices[1..], committed, opening, k);
      assert indices == [indices[0]] + indices[1..];
      if indices[0] == k {
        assert k !in indices[1..];
      }
    }
  }

  /**
   * The verdict is exact: a run tampered at `k` is rejected, with exactly `k` as the failed index, if and only if `k`
   * was sampled and the tampering was not swallowed by saturation; every other run is accepted.
   */
  lemma VerdictIsExact(r: Rules, q: SimulationRequest)
    requires SamplerSound(r)
    ensures Run(r, q).tamperApplied == if q.tamperStep.Some? && q.tamperStep.value < q.steps then q.tamperStep else None
    ensures Run(r, q).sampledIndices
            == r.sample(q.steps, q.samples, CommitmentAfter(r, GENESIS_MODEL, q.seed, q.steps), q.samplingEntropy)
    ensures Run(r, q).outcome ==
              if && q.tamperStep.Some? && q.tamperStep.value < q.steps
                 && q.tamperStep.value in r.sample(q.steps, q.samples, CommitmentAfter(r, GENESIS_MODEL, q.seed, q.steps),
                                                   q.samplingEntropy)
                 && StateAfter(r, GENESIS_MODEL, q.seed, q.tamperStep.value + 1).weights[0] < TWO63 - 1
              then Rejected([q.tamperStep.value as nat])
              else Accepted
  {
    var report := Run(r, q);
    var entries := report.committedTrace.entries;
    var tampered := report.openedTrace.entries;
    var indices := report.sampledIndices;
    assert IsSample(indices, |entries|, q.samples);
    var k: u64 := if report.tamperApplied.Some? then q.tamperStep.value else q.steps;
    forall i: u64 | i < |entries|
      ensures entries[i] == HonestEntry(r, GENESIS_MODEL, q.seed, i)
      ensures i != k ==> VerifySample(r, q.seed, i, entries[i], tampered[i]).Accepted()
    {
      HonestEntryAt(r, GENESIS_MODEL, q.seed, q.steps, i);
      HonestEntryVerifies(r, GENESIS_MODEL, q.seed, i);
    }
    OnlyOneCanFail(r, q.seed, indices, entries, tampered, k);
    if report.tamperApplied.Some? {
      TamperedEntryVerdict(r, GENESIS_MODEL, q.seed, k);
    } else {
      assert k !in indices;
    }
  }

  /** As long as drift cannot reach the saturation bound (any realistic number of steps), sampling alone decides. */
  lemma SampledTamperIsRejected(r: Rules, q: SimulationRequest)
    requires SamplerSound(r)
    requires 120 + 2 * q.steps < TWO63 - 1
    requires q.tamperStep.Some? && q.tamperStep.value < q.steps
    ensures Run(r, q).outcome ==
              if q.tamperStep.value in r.sample(q.steps, q.samples, CommitmentAfter(r, GENESIS_MODEL, q.seed, q.steps),
                                                q.samplingEntropy)
              then Rejected([q.tamperStep.value as nat]) else Accepted
  {
    VerdictIsExact(r, q);
    TrainingDrift(r, GENESIS_MODEL, q.seed, q.tamperStep.value + 1);
    assert GENESIS_MODEL.weights[0] == 120;
  }

  /**
   * What is committed and what is opened: the honest trace, and the same trace but for the first weight after the tampered
   * step, which is one higher unless it is at the end of the range.
   */
  lemma TamperingChangesOneWeight(r: Rules, q: SimulationRequest)
    requires SamplerSound(r)
    ensures var report := Run(r, q);
            var committed, opened' := report.committedTrace.entries, report.openedTrace.entries;
            && report.committedTrace == HonestTrace(r, GENESIS_MODEL, q.seed, q.steps)
            && |opened'| == |committed| == q.steps
            && (forall i :: 0 <= i < q.steps && Some(i as u64) != report.tamperApplied ==> opened'[i] == committed[i])
            && (report.tamperApplied.Some? ==>
                  var k := report.tamperApplied.value;
                  var old', new' := committed[k].step.stateAfter.weights, opened'[k].step.stateAfter.weights;
                  && opened'[k] == committed[k].(step := committed[k].step.(stateAfter := ModelState(new')))
                  && new'[1..] == old'[1..]
                  && new'[0] as int == if old'[0] == TWO63 - 1 then TWO63 - 1 else old'[0] as int + 1)
  {
  }
}

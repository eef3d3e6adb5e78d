/** Training traces and block validation (crates/chesscoin-core/src/application.rs). */
module Validation {
  import opened Prelude
  import opened Domain
  import opened Digests

  datatype ParentContext = ParentContext(height: nat, hash: Digest, model: ModelState)

  const GENESIS: ParentContext := ParentContext(0, ZERO, GENESIS_MODEL)

  datatype BlockError =
    | WrongHeight(expectedHeight: nat, actualHeight: nat)
    | WrongPreviousBlock
    | WrongModelBefore
    | WrongModelAfter
    | WrongTraceLength(expectedLength: nat, actualLength: nat)
    | WrongSampleCount(expectedSamples: nat, actualSamples: nat)
    | WrongTraceContinuity(at: nat)
    | WrongTraceRoot
    | InvalidSample(sample: nat)
    | InsufficientWork(requiredZeroBits: nat, actualZeroBits: nat)

  datatype Outcome = Pass | Fail(error: BlockError)

  datatype VerificationSample = VerificationSample(index: nat, commitmentOk: bool, transitionOk: bool) {
    predicate Accepted() {
      commitmentOk && transitionOk
    }
  }

  // ---------------------------------------------------------------- honest traces

  /** The model after `i` honest steps from `m`. */
  function StateAfter(r: Rules, m: ModelState, seed: u64, i: u64): ModelState {
    if i == 0 then m else r.train(seed, i - 1, StateAfter(r, m, seed, i - 1)).stateAfter
  }

  function HonestStep(r: Rules, m: ModelState, seed: u64, i: u64): TrainingStep {
    r.train(seed, i, StateAfter(r, m, seed, i))
  }

  /** The running commitment after `i` honest steps. */
  function CommitmentAfter(r: Rules, m: ModelState, seed: u64, i: u64): Digest {
    if i == 0 then ZERO
    else Commit(r, CommitmentAfter(r, m, seed, i - 1), HonestStep(r, m, seed, i - 1))
  }

  function HonestEntry(r: Rules, m: ModelState, seed: u64, i: u64): TraceEntry {
    var previous := CommitmentAfter(r, m, seed, i);
    var step := HonestStep(r, m, seed, i);
    TraceEntry(previous, step, Commit(r, previous, step))
  }

  function HonestEntries(r: Rules, m: ModelState, seed: u64, steps: u64): (entries: seq<TraceEntry>)
    ensures |entries| == steps
  {
    if steps == 0 then [] else HonestEntries(r, m, seed, steps - 1) + [HonestEntry(r, m, seed, steps - 1)]
  }

  /** The trace of `steps` honest training steps from `m`. */
  function HonestTrace(r: Rules, m: ModelState, seed: u64, steps: u64): TrainingTrace {
    TrainingTrace(
      m,
      StateAfter(r, m, seed, steps),
      HonestEntries(r, m, seed, steps),
      CommitmentAfter(r, m, seed, steps))
  }

  lemma {:induction false} HonestEntryAt(r: Rules, m: ModelState, seed: u64, steps: u64, i: u64)
    requires i < steps
    ensures HonestEntries(r, m, seed, steps)[i] == HonestEntry(r, m, seed, i)
  {
    if i < steps - 1 {
      HonestEntryAt(r, m, seed, steps - 1, i);
    }
  }

  /** `ProtocolSimulator::build_trace_from` builds exactly the honest trace. */
  method BuildTraceFrom(r: Rules, initialModel: ModelState, seed: u64, steps: u64) returns (trace: TrainingTrace)
    ensures trace == HonestTrace(r, initialModel, seed, steps)
  {
    var state := initialModel;
    var previousCommitment := ZERO;
    var entries: seq<TraceEntry> := [];
    var index: u64 := 0;
    while index < steps
      invariant index <= steps
      invariant state == StateAfter(r, initialModel, seed, index)
      invariant previousCommitment == CommitmentAfter(r, initialModel, seed, index)
      invariant entries == HonestEntries(r, initialModel, seed, index)
    {
      var step := r.train(seed, index, state);
      var commitment := Commit(r, previousCommitment, step);
      state := step.stateAfter;
      entries := entries + [TraceEntry(previousCommitment, step, commitment)];
      previousCommitment := commitment;
      index := index + 1;
    }
    trace := TrainingTrace(initialModel, state, entries, previousCommitment);
  }

  /** Training for `steps` steps moves no weight by more than twice that. */
  lemma {:induction false} TrainingDrift(r: Rules, m: ModelState, seed: u64, steps: u64)
    ensures Near(m, StateAfter(r, m, seed, steps), 2 * steps)
  {
    if steps == 0 {
    } else {
      TrainingDrift(r, m, seed, steps - 1);
      StepDrift(r.mixer, seed, steps - 1, StateAfter(r, m, seed, steps - 1));
      NearAdds(m, StateAfter(r, m, seed, steps - 1), StateAfter(r, m, seed, steps), 2 * (steps - 1), 2);
    }
  }

  // ---------------------------------------------------------------- what validation checks

  /** `verify_sample`: does the opened entry match the committed one and re-execute to itself? */
  function VerifySample(r: Rules, seed: u64, index: nat, committed: TraceEntry, opening: TraceEntry): VerificationSample {
    VerificationSample(
      index,
      && opening.previousCommitment == committed.previousCommitment
      && opening.commitment == committed.commitment
      && Commit(r, committed.previousCommitment, opening.step) == committed.commitment,
      && opening.step.index == index
      && r.train(seed, opening.step.index, opening.step.stateBefore) == opening.step)
  }

  /** The commitment that entry `i` must continue from. */
  function CommitmentBefore(entries: seq<TraceEntry>, i: nat): Digest
    requires i <= |entries|
  {
    if i == 0 then ZERO else entries[i - 1].commitment
  }

  predicate EntryLinked(r: Rules, entries: seq<TraceEntry>, i: nat)
    requires i < |entries|
  {
    && entries[i].previousCommitment == CommitmentBefore(entries, i)
    && entries[i].commitment == Commit(r, entries[i].previousCommitment, entries[i].step)
  }

  /** The entries form one commitment chain from zero to the root. */
  predicate CommitmentsChain(r: Rules, trace: TrainingTrace) {
    && (forall i :: 0 <= i < |trace.entries| ==> EntryLinked(r, trace.entries, i))
    && CommitmentBefore(trace.entries, |trace.entries|) == trace.root
  }

  /** The model that entry `i` must start from. */
  function StateBefore(trace: TrainingTrace, i: nat): ModelState
    requires i <= |trace.entries|
  {
    if i == 0 then trace.initialModel else trace.entries[i - 1].step.stateAfter
  }

  /** The first place, from `i` on, where the trace's states do not join up. */
  function FirstBreak(trace: TrainingTrace, i: nat): Option<nat>
    requires i <= |trace.entries|
    decreases |trace.entries| - i
  {
    if i == |trace.entries| then
      if trace.candidateModel != StateBefore(trace, i) then Some(i) else None
    else if trace.entries[i].step.stateBefore != StateBefore(trace, i) then Some(i)
    else FirstBreak(trace, i + 1)
  }

  /** The states of the trace join up from the initial model to the candidate model. */
  predicate Continuous(trace: TrainingTrace) {
    && (forall i :: 0 <= i < |trace.entries| ==> trace.entries[i].step.stateBefore == StateBefore(trace, i))
    && trace.candidateModel == StateBefore(trace, |trace.entries|)
  }

  /** The trace joins up at `i`: before entry `i`, or at its end. */
  predicate Joins(trace: TrainingTrace, i: nat)
    requires i <= |trace.entries|
  {
    StateBefore(trace, i) == if i < |trace.entries| then trace.entries[i].step.stateBefore else trace.candidateModel
  }

  lemma FirstBreakStep(trace: TrainingTrace, i: nat)
    requires i <= |trace.entries|
    ensures FirstBreak(trace, i) ==
              if !Joins(trace, i) then Some(i) else if i == |trace.entries| then None else FirstBreak(trace, i + 1)
  {
  }

  lemma {:induction false} FirstBreakIsFirst(trace: TrainingTrace, i: nat)
    requires i <= |trace.entries|
    ensures match FirstBreak(trace, i)
            case Some(at) => i <= at <= |trace.entries| && !Joins(trace, at) && forall j :: i <= j < at ==> Joins(trace, j)
            case None => forall j :: i <= j <= |trace.entries| ==> Joins(trace, j)
    decreases |trace.entries| - i
  {
    hide FirstBreak, Joins;
    FirstBreakStep(trace, i);
    if Joins(trace, i) && i < |trace.entries| {
      FirstBreakIsFirst(trace, i + 1);
    }
  }

  /** `FirstBreak` finds no break exactly if there is none, and otherwise the first one. */
  lemma FirstBreakMeaning(trace: TrainingTrace)
    ensures FirstBreak(trace, 0).Some? ==>
              var at := FirstBreak(trace, 0).value;
              && at <= |trace.entries|
              && (forall j :: 0 <= j < at ==> trace.entries[j].step.stateBefore == StateBefore(trace, j))
              && (at < |trace.entries| ==> trace.entries[at].step.stateBefore != StateBefore(trace, at))
              && (at == |trace.entries| ==> trace.candidateModel != StateBefore(trace, at))
    ensures FirstBreak(trace, 0) == None <==> Continuous(trace)
  {
    hide FirstBreak, StateBefore;
    FirstBreakIsFirst(trace, 0);
    if Continuous(trace) {
      forall j: nat | j <= |trace.entries|
        ensures Joins(trace, j)
      {
      }
    }
    if FirstBreak(trace, 0) == None {
      forall j: nat | j <= |trace.entries|
        ensures StateBefore(trace, j)
                == if j < |trace.entries| then trace.entries[j].step.stateBefore else trace.candidateModel
      {
        assert Joins(trace, j);
      }
    } else {
      forall j: nat | j < FirstBreak(trace, 0).value
        ensures trace.entries[j].step.stateBefore == StateBefore(trace, j)
      {
        assert Joins(trace, j);
      }
    }
  }

  predicate SamplePasses(r: Rules, b: Block, index: nat) {
    && index < |b.trace.entries|
    && VerifySample(r, b.header.trainingSeed, index, b.trace.entries[index], b.trace.entries[index]).Accepted()
  }

  /** The first sampled index, from position `k` on, that does not re-execute. */
  function FirstBadSample(r: Rules, b: Block, samples: seq<u64>, k: nat): Option<nat>
    requires k <= |samples|
    decreases |samples| - k
  {
    if k == |samples| then None
    else if !SamplePasses(r, b, samples[k]) then Some(samples[k])
    else FirstBadSample(r, b, samples, k + 1)
  }

  /** `FirstBadSample` finds none exactly if all samples from position `k` on pass, and otherwise the first that fails. */
  lemma {:induction false} FirstBadSampleMeaning(r: Rules, b: Block, samples: seq<u64>, k: nat)
    requires k <= |samples|
    ensures FirstBadSample(r, b, samples, k).Some? ==>
              exists j ::
                && k <= j < |samples| && samples[j] == FirstBadSample(r, b, samples, k).value
                && !SamplePasses(r, b, samples[j])
                && forall i :: k <= i < j ==> SamplePasses(r, b, samples[i])
    ensures FirstBadSample(r, b, samples, k) == None <==>
              forall j :: k <= j < |samples| ==> SamplePasses(r, b, samples[j])
    decreases |samples| - k
  {
    if k < |samples| {
      FirstBadSampleMeaning(r, b, samples, k + 1);
    }
  }

  function Sampled(r: Rules, b: Block): seq<u64> {
    r.sample(|b.trace.entries|, b.header.sampleCount, b.trace.root, b.header.samplingEntropy)
  }

  /** The verdict of `validate_block_after`, with the source's order of checks and its errors. */
  function Validate(r: Rules, parent: ParentContext, b: Block): Outcome {
    if b.header.height != parent.height then Fail(WrongHeight(parent.height, b.header.height))
    else if b.header.previousBlock != parent.hash then Fail(WrongPreviousBlock)
    else if b.header.modelBefore != parent.model || b.trace.initialModel != b.header.modelBefore then
      Fail(WrongModelBefore)
    else if b.trace.candidateModel != b.header.modelAfter then Fail(WrongModelAfter)
    else if |b.trace.entries| != r.config.stepsPerBlock then
      Fail(WrongTraceLength(r.config.stepsPerBlock, |b.trace.entries|))
    else if b.header.sampleCount != r.config.samplesPerBlock then
      Fail(WrongSampleCount(r.config.samplesPerBlock, b.header.sampleCount))
    else if b.trace.root != b.header.traceRoot then Fail(WrongTraceRoot)
    else if !CommitmentsChain(r, b.trace) then Fail(WrongTraceRoot)
    else if FirstBreak(b.trace, 0).Some? then Fail(WrongTraceContinuity(FirstBreak(b.trace, 0).value))
    else if ZeroBits(BlockHash(r, b).bytes) < r.config.difficultyZeroBits then
      Fail(InsufficientWork(r.config.difficultyZeroBits, ZeroBits(BlockHash(r, b).bytes)))
    else if FirstBadSample(r, b, Sampled(r, b), 0).Some? then
      Fail(InvalidSample(FirstBadSample(r, b, Sampled(r, b), 0).value))
    else Pass
  }

  /** The checks on the header alone: the part a header-first peer can screen. */
  predicate HeaderFits(r: Rules, parent: ParentContext, h: BlockHeader) {
    && h.height == parent.height
    && h.previousBlock == parent.hash
    && h.sampleCount == r.config.samplesPerBlock
    && ZeroBits(HeaderHash(r, h).bytes) >= r.config.difficultyZeroBits
  }

  /** The header and the trace speak of the same models and the same root. */
  predicate HeaderMatchesTrace(parent: ParentContext, b: Block) {
    && b.header.modelBefore == parent.model == b.trace.initialModel
    && b.header.modelAfter == b.trace.candidateModel
    && b.header.traceRoot == b.trace.root
  }

  /** Step `i` of the trace is what training with the block's seed gives in the state before it. */
  predicate Reexecutes(r: Rules, b: Block, i: nat) {
    && i < |b.trace.entries| && i < TWO64
    && b.trace.entries[i].step == r.train(b.header.trainingSeed, i, b.trace.entries[i].step.stateBefore)
  }

  /** In a commitment chain a sample passes exactly if its step re-executes. */
  lemma SampleMeaning(r: Rules, b: Block, i: u64)
    requires CommitmentsChain(r, b.trace)
    ensures SamplePasses(r, b, i) <==> Reexecutes(r, b, i)
  {
    if i < |b.trace.entries| {
      assert EntryLinked(r, b.trace.entries, i);
      var step := b.trace.entries[i].step;
      var honest := Deterministic(r.mixer, b.header.trainingSeed, i, step.stateBefore);
      assert r.train(b.header.trainingSeed, i, step.stateBefore) == honest && honest.index == i;
    }
  }

  /**
   * A block is valid exactly when all the declarative conditions hold, in whatever order they are checked. The steps that
   * must re-execute are those the sampler draws for the block's own trace length, sample count, root and entropy.
   */
  lemma ValidMeaning(r: Rules, parent: ParentContext, b: Block)
    ensures Validate(r, parent, b).Pass? <==>
              && HeaderFits(r, parent, b.header)
              && HeaderMatchesTrace(parent, b)
              && |b.trace.entries| == r.config.stepsPerBlock
              && CommitmentsChain(r, b.trace)
              && Continuous(b.trace)
              && (forall i :: i in r.sample(|b.trace.entries|, b.header.sampleCount, b.trace.root, b.header.samplingEntropy)
                    ==> Reexecutes(r, b, i))
  {
    hide SamplePasses, Reexecutes;
    FirstBreakMeaning(b.trace);
    FirstBadSampleMeaning(r, b, Sampled(r, b), 0);
    if CommitmentsChain(r, b.trace) {
      forall i: u64
        ensures SamplePasses(r, b, i) <==> Reexecutes(r, b, i)
      {
        SampleMeaning(r, b, i);
      }
    }
  }

  /** Every step that is drawn for a valid block is there, carries its index, and is a training step of the block's seed. */
  lemma DrawnStepsAreTrained(r: Rules, parent: ParentContext, b: Block, i: u64)
    requires Validate(r, parent, b).Pass?
    requires i in r.sample(|b.trace.entries|, b.header.sampleCount, b.trace.root, b.header.samplingEntropy)
    ensures i < |b.trace.entries|
    ensures var step := b.trace.entries[i].step;
            step.index == i && step == Deterministic(r.mixer, b.header.trainingSeed, i, step.stateBefore)
  {
    hide Validate, CommitmentsChain, Continuous;
    ValidMeaning(r, parent, b);
    assert Reexecutes(r, b, i);
    var step := b.trace.entries[i].step;
    assert r.train(b.header.trainingSeed, i, step.stateBefore)
           == Deterministic(r.mixer, b.header.trainingSeed, i, step.stateBefore);
  }

  /**
   * A block whose only fault is step `k` is refused for that step if the sampler draws `k` for the block's root and
   * entropy, and is accepted otherwise.
   */
  lemma SingleFaultVerdict(r: Rules, parent: ParentContext, b: Block, k: u64)
    requires HeaderFits(r, parent, b.header) && HeaderMatchesTrace(parent, b)
    requires |b.trace.entries| == r.config.stepsPerBlock && CommitmentsChain(r, b.trace) && Continuous(b.trace)
    requires k < |b.trace.entries| && !Reexecutes(r, b, k)
    requires forall i: nat :: i < |b.trace.entries| && i != k ==> Reexecutes(r, b, i)
    requires forall i :: i in r.sample(|b.trace.entries|, b.header.sampleCount, b.trace.root, b.header.samplingEntropy)
                         ==> i < |b.trace.entries|
    ensures Validate(r, parent, b) ==
              if k in r.sample(|b.trace.entries|, b.header.sampleCount, b.trace.root, b.header.samplingEntropy)
              then Fail(InvalidSample(k)) else Pass
  {
    hide SamplePasses, Reexecutes, CommitmentsChain;
    var samples := Sampled(r, b);
    FirstBreakMeaning(b.trace);
    FirstBadSampleMeaning(r, b, samples, 0);
    ValidMeaning(r, parent, b);
    forall i | 0 <= i < |samples|
      ensures SamplePasses(r, b, samples[i]) <==> samples[i] != k
    {
      assert samples[i] in samples;
      SampleMeaning(r, b, samples[i]);
    }
  }

  /** A refusal names a check that fails, with the values that were compared. */
  lemma RefusalIsTruthful(r: Rules, parent: ParentContext, b: Block)
    requires Validate(r, parent, b).Fail?
    ensures match Validate(r, parent, b).error
            case WrongHeight(expected, actual) =>
              expected == parent.height && actual == b.header.height && expected != actual
            case WrongPreviousBlock => b.header.previousBlock != parent.hash
            case WrongModelBefore => b.header.modelBefore != parent.model || b.trace.initialModel != parent.model
            case WrongModelAfter => b.trace.candidateModel != b.header.modelAfter
            case WrongTraceLength(expected, actual) =>
              expected == r.config.stepsPerBlock && actual == |b.trace.entries| && expected != actual
            case WrongSampleCount(expected, actual) =>
              expected == r.config.samplesPerBlock && actual == b.header.sampleCount && expected != actual
            case WrongTraceRoot => b.trace.root != b.header.traceRoot || !CommitmentsChain(r, b.trace)
            case WrongTraceContinuity(at) =>
              && at <= |b.trace.entries|
              && (if at < |b.trace.entries| then b.trace.entries[at].step.stateBefore else b.trace.candidateModel)
                 != StateBefore(b.trace, at)
              && forall j :: 0 <= j < at ==> b.trace.entries[j].step.stateBefore == StateBefore(b.trace, j)
            case InsufficientWork(required, actual) =>
              required == r.config.difficultyZeroBits && actual == ZeroBits(BlockHash(r, b).bytes) < required
            case InvalidSample(i) =>
              && i in r.sample(|b.trace.entries|, b.header.sampleCount, b.trace.root, b.header.samplingEntropy)
              && !Reexecutes(r, b, i)
  {
    hide SamplePasses, Reexecutes, EntryLinked;
    FirstBreakMeaning(b.trace);
    FirstBadSampleMeaning(r, b, Sampled(r, b), 0);
    if Validate(r, parent, b).error.InvalidSample? {
      SampleMeaning(r, b, Validate(r, parent, b).error.sample);
    }
  }

  /** The checks in their order; the two that report a wrong trace root count as one. */
  predicate CheckPasses(r: Rules, parent: ParentContext, b: Block, i: nat) {
    match i
    case 0 => b.header.height == parent.height
    case 1 => b.header.previousBlock == parent.hash
    case 2 => b.header.modelBefore == parent.model && b.trace.initialModel == b.header.modelBefore
    case 3 => b.header.modelAfter == b.trace.candidateModel
    case 4 => |b.trace.entries| == r.config.stepsPerBlock
    case 5 => b.header.sampleCount == r.config.samplesPerBlock
    case 6 => b.header.traceRoot == b.trace.root && CommitmentsChain(r, b.trace)
    case 7 => Continuous(b.trace)
    case 8 => ZeroBits(BlockHash(r, b).bytes) >= r.config.difficultyZeroBits
    case 9 => forall i :: i in r.sample(|b.trace.entries|, b.header.sampleCount, b.trace.root, b.header.samplingEntropy)
                ==> Reexecutes(r, b, i)
    case _ => true
  }

  function CheckOf(e: BlockError): nat {
    match e
    case WrongHeight(_, _) => 0
    case WrongPreviousBlock => 1
    case WrongModelBefore => 2
    case WrongModelAfter => 3
    case WrongTraceLength(_, _) => 4
    case WrongSampleCount(_, _) => 5
    case WrongTraceRoot => 6
    case WrongTraceContinuity(_) => 7
    case InsufficientWork(_, _) => 8
    case InvalidSample(_) => 9
  }

  /** A block passes if all checks do, and is refused for the first one that does not. */
  lemma RefusedByFirstFailingCheck(r: Rules, parent: ParentContext, b: Block)
    ensures match Validate(r, parent, b)
            case Pass => forall i :: CheckPasses(r, parent, b, i)
            case Fail(e) =>
              && !CheckPasses(r, parent, b, CheckOf(e))
              && forall i :: 0 <= i < CheckOf(e) ==> CheckPasses(r, parent, b, i)
  {
    hide SamplePasses, Reexecutes, EntryLinked, CommitmentsChain, Continuous, FirstBreak, FirstBadSample;
    FirstBreakMeaning(b.trace);
    ValidMeaning(r, parent, b);
    if Validate(r, parent, b).Fail? {
      RefusalIsTruthful(r, parent, b);
    }
  }

  /**
   * The entries start from the zero digest, hand each commitment on to the next, hash each step together with the
   * commitment before it, and end in the root.
   */
  ghost predicate ChainedFromZero(r: Rules, trace: TrainingTrace) {
    var n, e := |trace.entries|, trace.entries;
    && (n == 0 ==> trace.root == Digest(ZeroBytes(32)))
    && (n > 0 ==> e[0].previousCommitment == Digest(ZeroBytes(32)) && e[n - 1].commitment == trace.root)
    && (forall i :: 0 < i < n ==> e[i].previousCommitment == e[i - 1].commitment)
    && (forall i :: 0 <= i < n ==> e[i].commitment == r.hash(r.encode.commit(e[i].previousCommitment, e[i].step)))
  }

  /** That is what the commitment check demands. */
  lemma CommitmentChainMeaning(r: Rules, trace: TrainingTrace)
    ensures CommitmentsChain(r, trace) <==> ChainedFromZero(r, trace)
  {
    var n, e := |trace.entries|, trace.entries;
    if CommitmentsChain(r, trace) {
      forall i | 0 <= i < n
        ensures e[i].commitment == r.hash(r.encode.commit(e[i].previousCommitment, e[i].step))
        ensures e[i].previousCommitment == if i == 0 then ZERO else e[i - 1].commitment
      {
        assert EntryLinked(r, e, i);
      }
      if n > 0 {
        assert EntryLinked(r, e, 0);
      }
      assert ChainedFromZero(r, trace);
    }
    if ChainedFromZero(r, trace) {
      forall i | 0 <= i < n
        ensures EntryLinked(r, e, i)
      {
        assert e[i].commitment == r.hash(r.encode.commit(e[i].previousCommitment, e[i].step));
      }
      assert CommitmentBefore(e, n) == trace.root;
    }
  }

  /** A trace is continuous if each step starts where the one before ended, from the initial to the candidate model. */
  lemma ContinuityMeaning(trace: TrainingTrace)
    ensures var n, e := |trace.entries|, trace.entries;
            Continuous(trace) <==>
              && (n == 0 ==> trace.candidateModel == trace.initialModel)
              && (n > 0 ==> e[0].step.stateBefore == trace.initialModel && e[n - 1].step.stateAfter == trace.candidateModel)
              && (forall i :: 0 <= i < n - 1 ==> e[i + 1].step.stateBefore == e[i].step.stateAfter)
  {
    var n, e := |trace.entries|, trace.entries;
    if Continuous(trace) {
      forall i | 0 <= i < n - 1
        ensures e[i + 1].step.stateBefore == e[i].step.stateAfter
      {
        assert e[i + 1].step.stateBefore == StateBefore(trace, i + 1);
      }
    }
  }

  // ---------------------------------------------------------------- the source's loops

  method ValidateCommitmentChain(r: Rules, b: Block) returns (outcome: Outcome)
    ensures outcome == if CommitmentsChain(r, b.trace) then Pass else Fail(WrongTraceRoot)
  {
    var entries := b.trace.entries;
    var previousCommitment := ZERO;
    var i := 0;
    while i < |entries|
      invariant 0 <= i <= |entries|
      invariant previousCommitment == CommitmentBefore(entries, i)
      invariant forall j :: 0 <= j < i ==> EntryLinked(r, entries, j)
    {
      if entries[i].previousCommitment != previousCommitment {
        assert !EntryLinked(r, entries, i);
        return Fail(WrongTraceRoot);
      }
      var expectedCommitment := Commit(r, previousCommitment, entries[i].step);
      if entries[i].commitment != expectedCommitment {
        assert !EntryLinked(r, entries, i);
        return Fail(WrongTraceRoot);
      }
      previousCommitment := entries[i].commitment;
      i := i + 1;
    }
    if previousCommitment != b.trace.root {
      return Fail(WrongTraceRoot);
    }
    return Pass;
  }

  method ValidateTraceContinuity(b: Block) returns (outcome: Outcome)
    ensures outcome == Pass <==> Continuous(b.trace)
    ensures outcome == match FirstBreak(b.trace, 0)
                       case Some(at) => Fail(WrongTraceContinuity(at))
                       case None => Pass
  {
    FirstBreakMeaning(b.trace);
    var expectedState := b.trace.initialModel;
    var i := 0;
    while i < |b.trace.entries|
      invariant 0 <= i <= |b.trace.entries|
      invariant expectedState == StateBefore(b.trace, i)
      invariant FirstBreak(b.trace, i) == FirstBreak(b.trace, 0)
    {
      if b.trace.entries[i].step.stateBefore != expectedState {
        return Fail(WrongTraceContinuity(i));
      }
      expectedState := b.trace.entries[i].step.stateAfter;
      i := i + 1;
    }
    if b.trace.candidateModel != expectedState {
      return Fail(WrongTraceContinuity(|b.trace.entries|));
    }
    return Pass;
  }

  /** `validate_block_after`. */
  method ValidateBlockAfter(r: Rules, parent: ParentContext, b: Block) returns (outcome: Outcome)
    ensures outcome == Validate(r, parent, b)
    ensures outcome.Pass? ==>
              forall i :: i in r.sample(|b.trace.entries|, b.header.sampleCount, b.trace.root, b.header.samplingEntropy)
                ==> Reexecutes(r, b, i)
  {
    ValidMeaning(r, parent, b);
    var config := r.config;
    if b.header.height != parent.height {
      return Fail(WrongHeight(parent.height, b.header.height));
    }
    if b.header.previousBlock != parent.hash {
      return Fail(WrongPreviousBlock);
    }
    if b.header.modelBefore != parent.model || b.trace.initialModel != b.header.modelBefore {
      return Fail(WrongModelBefore);
    }
    if b.trace.candidateModel != b.header.modelAfter {
      return Fail(WrongModelAfter);
    }
    if |b.trace.entries| != config.stepsPerBlock {
      return Fail(WrongTraceLength(config.stepsPerBlock, |b.trace.entries|));
    }
    if b.header.sampleCount != config.samplesPerBlock {
      return Fail(WrongSampleCount(config.samplesPerBlock, b.header.sampleCount));
    }
    if b.trace.root != b.header.traceRoot {
      return Fail(WrongTraceRoot);
    }
    outcome := ValidateCommitmentChain(r, b);
    if outcome.Fail? {
      return;
    }
    outcome := ValidateTraceContinuity(b);
    if outcome.Fail? {
      return;
    }
    var actualWork := LeadingZeroBits(BlockHash(r, b));
    if actualWork < config.difficultyZeroBits {
      return Fail(InsufficientWork(config.difficultyZeroBits, actualWork));
    }
    var sampledIndices := Sampled(r, b);
    var k := 0;
    while k < |sampledIndices|
      invariant 0 <= k <= |sampledIndices|
      invariant FirstBadSample(r, b, sampledIndices, k) == FirstBadSample(r, b, sampledIndices, 0)
    {
      var index := sampledIndices[k];
      if index >= |b.trace.entries| {
        return Fail(InvalidSample(index));
      }
      var entry := b.trace.entries[index];
      var sample := VerifySample(r, b.header.trainingSeed, index, entry, entry);
      if !sample.Accepted() {
        return Fail(InvalidSample(index));
      }
      k := k + 1;
    }
    return Pass;
  }
}

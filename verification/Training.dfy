/** What sampled validation guarantees about training: honest traces always pass, and full sampling admits nothing else. */
module Training {
  import opened Prelude
  import opened Domain
  import opened Digests
  import opened Validation

  /** What `sample_indices` promises: distinct ascending positions of the trace, as many as asked for and available. */
  ghost predicate IsSample(s: seq<u64>, traceLength: nat, count: nat) {
    && |s| == Min(traceLength, count)
    && (forall i :: 0 <= i < |s| ==> s[i] < traceLength)
    && (forall i, j :: 0 <= i < j < |s| ==> s[i] < s[j])
  }

  ghost predicate SamplerSound(r: Rules) {
    forall n: nat, count: u64, root, entropy :: IsSample(r.sample(n, count, root, entropy), n, count)
  }

  /** A sample as large as the trace is the whole trace. */
  lemma {:induction false} FullSampleAt(s: seq<u64>, traceLength: nat, count: nat, i: nat)
    requires IsSample(s, traceLength, count)
    requires count >= traceLength && i < traceLength
    ensures s[i] == i
  {
    FullSampleLow(s, traceLength, count, i);
    FullSampleHigh(s, traceLength, count, i);
  }

  lemma {:induction false} FullSampleLow(s: seq<u64>, traceLength: nat, count: nat, i: nat)
    requires IsSample(s, traceLength, count)
    requires i < |s|
    ensures s[i] >= i
  {
    if i > 0 {
      FullSampleLow(s, traceLength, count, i - 1);
      assert s[i - 1] < s[i];
    }
  }

  lemma {:induction false} FullSampleHigh(s: seq<u64>, traceLength: nat, count: nat, i: nat)
    requires IsSample(s, traceLength, count)
    requires i < |s| == traceLength
    ensures s[i] <= i
    decreases |s| - i
  {
    if i + 1 < |s| {
      FullSampleHigh(s, traceLength, count, i + 1);
      assert s[i] < s[i + 1];
    }
  }

  // ---------------------------------------------------------------- honest traces pass

  lemma {:induction false} HonestPrefix(r: Rules, m: ModelState, seed: u64, steps: u64, i: u64)
    requires i <= steps
    ensures CommitmentBefore(HonestTrace(r, m, seed, steps).entries, i) == CommitmentAfter(r, m, seed, i)
    ensures StateBefore(HonestTrace(r, m, seed, steps), i) == StateAfter(r, m, seed, i)
  {
    if i > 0 {
      HonestEntryAt(r, m, seed, steps, i - 1);
    }
  }

  /** The honest trace is one commitment chain, its states join up, and every step re-executes. */
  lemma HonestTracePasses(r: Rules, parent: ParentContext, b: Block)
    requires |b.trace.entries| == r.config.stepsPerBlock
    requires b.trace == HonestTrace(r, parent.model, b.header.trainingSeed, r.config.stepsPerBlock)
    ensures CommitmentsChain(r, b.trace)
    ensures Continuous(b.trace)
    ensures forall i :: 0 <= i < |b.trace.entries| ==> SamplePasses(r, b, i) && Reexecutes(r, b, i)
  {
    var m, seed, steps := parent.model, b.header.trainingSeed, r.config.stepsPerBlock;
    HonestPrefix(r, m, seed, steps, steps);
    forall i: nat | i < |b.trace.entries|
      ensures EntryLinked(r, b.trace.entries, i)
      ensures b.trace.entries[i].step.stateBefore == StateBefore(b.trace, i)
      ensures SamplePasses(r, b, i) && Reexecutes(r, b, i)
    {
      HonestPrefix(r, m, seed, steps, i);
      HonestEntryAt(r, m, seed, steps, i);
      var step := Deterministic(r.mixer, seed, i, StateAfter(r, m, seed, i));
      assert b.trace.entries[i].step == step;
    }
  }

  // ---------------------------------------------------------------- nothing else passes

  lemma CheckedEntryIsHonest(r: Rules, b: Block, i: u64)
    requires i < |b.trace.entries|
    requires EntryLinked(r, b.trace.entries, i) && SamplePasses(r, b, i)
    requires b.trace.entries[i].step.stateBefore == StateBefore(b.trace, i)
    requires CommitmentBefore(b.trace.entries, i) == CommitmentAfter(r, b.trace.initialModel, b.header.trainingSeed, i)
    requires StateBefore(b.trace, i) == StateAfter(r, b.trace.initialModel, b.header.trainingSeed, i)
    ensures b.trace.entries[i] == HonestEntry(r, b.trace.initialModel, b.header.trainingSeed, i)
  {
  }

  /** Where every earlier step re-executes, a linked and continuous trace stands where honest training would stand. */
  lemma {:induction false} CheckedPrefixIsHonest(r: Rules, b: Block, i: u64)
    requires i <= |b.trace.entries|
    requires CommitmentsChain(r, b.trace) && Continuous(b.trace)
    requires forall j :: 0 <= j < i ==> SamplePasses(r, b, j)
    ensures CommitmentBefore(b.trace.entries, i) == CommitmentAfter(r, b.trace.initialModel, b.header.trainingSeed, i)
    ensures StateBefore(b.trace, i) == StateAfter(r, b.trace.initialModel, b.header.trainingSeed, i)
  {
    hide SamplePasses, Commit;
    if i > 0 {
      CheckedPrefixIsHonest(r, b, i - 1);
      CheckedEntryIsHonest(r, b, i - 1);
    }
  }

  /** So if every step re-executes, the trace is the honest one. */
  lemma CheckedTraceIsHonest(r: Rules, b: Block)
    requires |b.trace.entries| == r.config.stepsPerBlock
    requires CommitmentsChain(r, b.trace) && Continuous(b.trace)
    requires forall j :: 0 <= j < |b.trace.entries| ==> SamplePasses(r, b, j)
    ensures b.trace == HonestTrace(r, b.trace.initialModel, b.header.trainingSeed, r.config.stepsPerBlock)
  {
    hide SamplePasses, HonestEntry;
    var m, seed, n := b.trace.initialModel, b.header.trainingSeed, r.config.stepsPerBlock;
    forall i: u64 | i < n
      ensures b.trace.entries[i] == HonestEntries(r, m, seed, n)[i]
    {
      CheckedPrefixIsHonest(r, b, i);
      CheckedEntryIsHonest(r, b, i);
      HonestEntryAt(r, m, seed, n, i);
    }
    CheckedPrefixIsHonest(r, b, n);
  }

  /**
   * With as many samples as steps, a block is valid exactly when its header fits and its trace is the one honest
   * training run from the parent's model: sampling leaves no freedom.
   */
  lemma FullSamplingAdmitsOnlyHonestTraces(r: Rules, parent: ParentContext, b: Block)
    requires SamplerSound(r)
    requires r.config.samplesPerBlock >= r.config.stepsPerBlock
    ensures Validate(r, parent, b).Pass? <==>
              && HeaderFits(r, parent, b.header)
              && HeaderMatchesTrace(parent, b)
              && b.trace == HonestTrace(r, parent.model, b.header.trainingSeed, r.config.stepsPerBlock)
  {
    ValidMeaning(r, parent, b);
    var s, n := Sampled(r, b), |b.trace.entries|;
    assert IsSample(s, n, b.header.sampleCount);
    if Validate(r, parent, b).Pass? {
      forall j: nat | j < n
        ensures SamplePasses(r, b, j)
      {
        FullSampleAt(s, n, b.header.sampleCount, j);
        assert s[j] in s && Reexecutes(r, b, j);
        SampleMeaning(r, b, j);
      }
      CheckedTraceIsHonest(r, b);
    }
    if b.trace == HonestTrace(r, parent.model, b.header.trainingSeed, r.config.stepsPerBlock) {
      HonestTracePasses(r, parent, b);
    }
  }

  // ---------------------------------------------------------------- mining

  /** The header `mine_next_block` starts from, with the nonce it settles on. */
  function Candidate(r: Rules, parent: ParentContext, seed: u64, entropy: u64, nonce: u64): Block
    requires parent.height < TWO64
  {
    var trace := HonestTrace(r, parent.model, seed, r.config.stepsPerBlock);
    Block(
      BlockHeader(parent.height, parent.hash, trace.initialModel, trace.candidateModel, trace.root,
                  seed, entropy, r.config.samplesPerBlock, nonce),
      trace)
  }

  predicate EnoughWork(r: Rules, b: Block) {
    ZeroBits(BlockHash(r, b).bytes) >= r.config.difficultyZeroBits
  }

  /** The first nonce, from `nonce` on, whose candidate meets the difficulty; `None` if every one of the 2^64 fails. */
  function Mined(r: Rules, parent: ParentContext, seed: u64, entropy: u64, nonce: nat): Option<Block>
    requires parent.height < TWO64
    requires nonce <= TWO64
    decreases TWO64 - nonce
  {
    if nonce == TWO64 then None
    else if EnoughWork(r, Candidate(r, parent, seed, entropy, nonce)) then Some(Candidate(r, parent, seed, entropy, nonce))
    else Mined(r, parent, seed, entropy, nonce + 1)
  }

  lemma {:induction false} MinedIsCandidate(r: Rules, parent: ParentContext, seed: u64, entropy: u64, nonce: nat)
    requires parent.height < TWO64
    requires nonce <= TWO64
    ensures Mined(r, parent, seed, entropy, nonce) == None <==>
              forall k: u64 :: nonce <= k ==> !EnoughWork(r, Candidate(r, parent, seed, entropy, k))
    ensures Mined(r, parent, seed, entropy, nonce).Some? ==>
              exists k: u64 ::
                && nonce <= k
                && Mined(r, parent, seed, entropy, nonce).value == Candidate(r, parent, seed, entropy, k)
                && EnoughWork(r, Candidate(r, parent, seed, entropy, k))
    decreases TWO64 - nonce
  {
    if nonce < TWO64 && !EnoughWork(r, Candidate(r, parent, seed, entropy, nonce)) {
      MinedIsCandidate(r, parent, seed, entropy, nonce + 1);
    }
  }

  /**
   * `b` is what a miner was asked for: a block on `parent` with the given seed and entropy, with the honest trace of that
   * seed from the parent's model, with enough work, and with the first nonce that gives it.
   */
  ghost predicate IsMinedFor(r: Rules, b: Block, parent: ParentContext, seed: u64, entropy: u64) {
    var h, trace := b.header, HonestTrace(r, parent.model, seed, r.config.stepsPerBlock);
    && h.height == parent.height && h.previousBlock == parent.hash
    && h.trainingSeed == seed && h.samplingEntropy == entropy && h.sampleCount == r.config.samplesPerBlock
    && h.modelBefore == parent.model && h.modelAfter == trace.candidateModel && h.traceRoot == trace.root
    && b.trace == trace
    && ZeroBits(HeaderHash(r, h).bytes) >= r.config.difficultyZeroBits
    && forall nonce: u64 {:trigger h.(nonce := nonce)} :: nonce < h.nonce ==>
         ZeroBits(HeaderHash(r, h.(nonce := nonce)).bytes) < r.config.difficultyZeroBits
  }

  lemma {:induction false} MinedFrom(r: Rules, parent: ParentContext, seed: u64, entropy: u64, nonce: nat)
    requires parent.height < TWO64 && nonce <= TWO64
    requires forall k: u64 :: k < nonce ==> !EnoughWork(r, Candidate(r, parent, seed, entropy, k))
    ensures var mined := Mined(r, parent, seed, entropy, nonce);
            mined.Some? ==> IsMinedFor(r, mined.value, parent, seed, entropy)
    decreases TWO64 - nonce
  {
    hide HonestTrace;
    if nonce < TWO64 {
      if EnoughWork(r, Candidate(r, parent, seed, entropy, nonce)) {
        var b := Candidate(r, parent, seed, entropy, nonce);
        CandidateFields(r, parent, seed, entropy, nonce);
        forall k: u64 | k < b.header.nonce
          ensures ZeroBits(HeaderHash(r, b.header.(nonce := k)).bytes) < r.config.difficultyZeroBits
        {
          assert b.header.(nonce := k) == Candidate(r, parent, seed, entropy, k).header;
        }
      } else {
        MinedFrom(r, parent, seed, entropy, nonce + 1);
      }
    }
  }

  lemma CandidateFields(r: Rules, parent: ParentContext, seed: u64, entropy: u64, nonce: u64)
    requires parent.height < TWO64
    ensures Candidate(r, parent, seed, entropy, nonce).trace.initialModel == parent.model
  {
  }

  /** Whatever is mined is what the miner was asked for. */
  lemma MinedMeaning(r: Rules, parent: ParentContext, seed: u64, entropy: u64)
    requires parent.height < TWO64
    ensures var mined := Mined(r, parent, seed, entropy, 0);
            mined.Some? ==> IsMinedFor(r, mined.value, parent, seed, entropy)
  {
    MinedFrom(r, parent, seed, entropy, 0);
  }

  /**
   * The proof-of-work loop. The source's nonce wraps, so it runs for ever exactly when no nonce works; the model
   * tries each nonce once and returns `None` in that case.
   */
  method MineAfter(r: Rules, parent: ParentContext, seed: u64, entropy: u64) returns (mined: Option<Block>)
    requires parent.height < TWO64
    ensures mined == Mined(r, parent, seed, entropy, 0)
    ensures mined.Some? ==> IsMinedFor(r, mined.value, parent, seed, entropy)
  {
    hide IsMinedFor, HonestTrace, ZeroBits;
    MinedMeaning(r, parent, seed, entropy);
    var trace := BuildTraceFrom(r, parent.model, seed, r.config.stepsPerBlock);
    var nonce: nat := 0;
    while nonce < TWO64
      invariant nonce <= TWO64
      invariant Mined(r, parent, seed, entropy, nonce) == Mined(r, parent, seed, entropy, 0)
    {
      var header := BlockHeader(parent.height, parent.hash, trace.initialModel, trace.candidateModel, trace.root,
                                seed, entropy, r.config.samplesPerBlock, nonce);
      var candidate := Block(header, trace);
      var work := LeadingZeroBits(BlockHash(r, candidate));
      if work >= r.config.difficultyZeroBits {
        return Some(candidate);
      }
      nonce := nonce + 1;
    }
    return None;
  }

  /** Whatever mining returns passes validation on the parent it was mined for. */
  lemma MinedBlockIsValid(r: Rules, parent: ParentContext, seed: u64, entropy: u64)
    requires parent.height < TWO64
    requires SamplerSound(r)
    requires Mined(r, parent, seed, entropy, 0).Some?
    ensures Validate(r, parent, Mined(r, parent, seed, entropy, 0).value).Pass?
    ensures Mined(r, parent, seed, entropy, 0).value.header.previousBlock == parent.hash
  {
    MinedIsCandidate(r, parent, seed, entropy, 0);
    var b := Mined(r, parent, seed, entropy, 0).value;
    HonestTracePasses(r, parent, b);
    ValidMeaning(r, parent, b);
    assert IsSample(Sampled(r, b), |b.trace.entries|, b.header.sampleCount);
  }
}

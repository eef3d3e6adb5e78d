/** The protocol's values (crates/chesscoin-core/src/domain.rs) and the rules they are checked under. */
module Domain {
  import opened Prelude

  const MODEL_WIDTH: nat := 8
  const LEARNING_RATE_PPM: i64 := 125_000

  type Bytes32 = b: seq<byte> | |b| == 32 witness [
    0, 0, 0, 0, 0, 0, 0, 0, 0, 0, 0, 0, 0, 0, 0, 0,
    0, 0, 0, 0, 0, 0, 0, 0, 0, 0, 0, 0, 0, 0, 0, 0]

  datatype Digest = Digest(bytes: Bytes32)

  function ZeroBytes(n: nat): (b: seq<byte>)
    ensures |b| == n
  {
    seq(n, i => 0)
  }

  const ZERO: Digest := Digest(ZeroBytes(32))

  type Weights = w: seq<i64> | |w| == MODEL_WIDTH witness [0, 0, 0, 0, 0, 0, 0, 0]

  datatype ModelState = ModelState(weights: Weights)

  const GENESIS_MODEL: ModelState := ModelState([120, -80, 45, 210, -135, 65, 15, -30])

  datatype TrainingStep = TrainingStep(
    index: u64,
    seed: u64,
    batchId: u64,
    weightIndex: u64,
    gradient: i64,
    learningRatePpm: i64,
    stateBefore: ModelState,
    stateAfter: ModelState)

  datatype TraceEntry = TraceEntry(previousCommitment: Digest, step: TrainingStep, commitment: Digest)

  datatype TrainingTrace = TrainingTrace(
    initialModel: ModelState,
    candidateModel: ModelState,
    entries: seq<TraceEntry>,
    root: Digest)

  datatype BlockHeader = BlockHeader(
    height: u64,
    previousBlock: Digest,
    modelBefore: ModelState,
    modelAfter: ModelState,
    traceRoot: Digest,
    trainingSeed: u64,
    samplingEntropy: u64,
    sampleCount: u64,
    nonce: u64)

  datatype Block = Block(header: BlockHeader, trace: TrainingTrace)

  datatype ChainConfig = ChainConfig(stepsPerBlock: u64, samplesPerBlock: u64, difficultyZeroBits: u32)

  /** The three uses the source makes of its integer mixer; nothing is assumed about their quality. */
  datatype Mixer = Mixer(
    step: (u64, u64) -> u64,
    batch: u64 -> u64,
    gradient: (u64, u64, ModelState, u64) -> u64)

  // ---------------------------------------------------------------- training step

  /** Rust's `/` on signed integers drops the fraction towards zero. */
  function TruncDiv(a: int, b: int): int
    requires b > 0
  {
    if a >= 0 then a / b else -((-a) / b)
  }

  /** The clamp of `saturating_add` and `saturating_sub` on `i64`. */
  function Saturate(x: int): i64 {
    if x < -TWO63 then -TWO63 else if x >= TWO63 then TWO63 - 1 else x
  }

  function Gradient(m: Mixer, seed: u64, index: u64, before: ModelState, mixed: u64): i64 {
    m.gradient(seed, index, before, mixed) % 41 - 20
  }

  function Deterministic(m: Mixer, seed: u64, index: u64, before: ModelState): TrainingStep {
    var mixed := m.step(seed, index);
    var weightIndex := mixed % MODEL_WIDTH;
    var gradient := Gradient(m, seed, index, before, mixed);
    var delta := TruncDiv(gradient * LEARNING_RATE_PPM, 1_000_000);
    TrainingStep(index, seed, m.batch(mixed), weightIndex, gradient, LEARNING_RATE_PPM, before,
                 ModelState(before.weights[weightIndex := Saturate(before.weights[weightIndex] - delta)]))
  }

  /** Every weight of `b` is within `bound` of the same weight of `a`. */
  ghost predicate Near(a: ModelState, b: ModelState, bound: nat) {
    forall j :: 0 <= j < MODEL_WIDTH ==>
      a.weights[j] as int <= b.weights[j] as int + bound && b.weights[j] as int <= a.weights[j] as int + bound
  }

  lemma DeltaIsSmall(gradient: int)
    requires -20 <= gradient <= 20
    ensures -2 <= TruncDiv(gradient * LEARNING_RATE_PPM, 1_000_000) <= 2
  {
    if gradient >= 0 {
      assert 0 <= gradient * LEARNING_RATE_PPM < 3_000_000;
    } else {
      assert 0 <= -(gradient * LEARNING_RATE_PPM) < 3_000_000;
    }
  }

  lemma NearAdds(a: ModelState, b: ModelState, c: ModelState, m: nat, n: nat)
    requires Near(a, b, m) && Near(b, c, n)
    ensures Near(a, c, m + n)
  {
  }

  /** One training step moves one weight by at most two, and no other weight. */
  lemma StepDrift(m: Mixer, seed: u64, index: u64, before: ModelState)
    ensures Near(before, Deterministic(m, seed, index, before).stateAfter, 2)
    ensures forall j :: 0 <= j < MODEL_WIDTH && j != Deterministic(m, seed, index, before).weightIndex
              ==> Deterministic(m, seed, index, before).stateAfter.weights[j] == before.weights[j]
  {
    DeltaIsSmall(Gradient(m, seed, index, before, m.step(seed, index)));
  }

  // ---------------------------------------------------------------- byte encodings

  // The domain-separation prefixes, byte by byte: "chesscoin.trace-step.v1", "chesscoin.commit.v1"
  // and "chesscoin.block-header.v1".
  function StepMagic(): seq<byte> {
    [99, 104, 101, 115, 115, 99, 111, 105, 110, 46, 116, 114, 97, 99, 101, 45, 115, 116, 101, 112, 46,
    118, 49]
  }

  function CommitMagic(): seq<byte> {
    [99, 104, 101, 115, 115, 99, 111, 105, 110, 46, 99, 111, 109, 109, 105, 116, 46, 118, 49]
  }

  function HeaderMagic(): seq<byte> {
    [99, 104, 101, 115, 115, 99, 111, 105, 110, 46, 98, 108, 111, 99, 107, 45, 104, 101, 97, 100, 101,
    114, 46, 118, 49]
  }

  /** `n` little-endian bytes of `x`. */
  function LeBytes(x: nat, n: nat): (b: seq<byte>)
    ensures |b| == n
  {
    if n == 0 then [] else [x % 256] + LeBytes(x / 256, n - 1)
  }

  function FromLe(b: seq<byte>): nat {
    if b == [] then 0 else b[0] + 256 * FromLe(b[1..])
  }

  /** The word a signed weight is stored as (two's complement). */
  function Word(x: i64): u64 {
    if x < 0 then x + TWO64 else x
  }

  function SignedWords(m: seq<i64>): (ws: seq<u64>)
    ensures |ws| == |m|
  {
    if m == [] then [] else [Word(m[0])] + SignedWords(m[1..])
  }

  function WeightWords(m: ModelState): (ws: seq<u64>)
    ensures |ws| == MODEL_WIDTH
  {
    SignedWords(m.weights)
  }

  function WordBytes(ws: seq<u64>): (b: seq<byte>)
    ensures |b| == 8 * |ws|
  {
    if ws == [] then [] else LeBytes(ws[0], 8) + WordBytes(ws[1..])
  }

  function StepWords(s: TrainingStep): (ws: seq<u64>)
    ensures |ws| == 22
  {
    [s.index, s.seed, s.batchId, s.weightIndex, Word(s.gradient), Word(s.learningRatePpm)]
    + WeightWords(s.stateBefore) + WeightWords(s.stateAfter)
  }

  function EncodeStep(s: TrainingStep): seq<byte> {
    StepMagic() + WordBytes(StepWords(s))
  }

  function EncodeHeader(h: BlockHeader): seq<byte> {
    HeaderMagic()
    + (WordBytes([h.height])
    + (h.previousBlock.bytes
    + (WordBytes(WeightWords(h.modelBefore) + WeightWords(h.modelAfter))
    + (h.traceRoot.bytes
    + WordBytes([h.trainingSeed, h.samplingEntropy, h.sampleCount, h.nonce])))))
  }

  function CommitInput(previous: Digest, step: TrainingStep): seq<byte> {
    CommitMagic() + (previous.bytes + EncodeStep(step))
  }

  function HeaderInput(h: BlockHeader): seq<byte> {
    EncodeHeader(h) + h.traceRoot.bytes
  }

  // ---------------------------------------------------------------- rules

  /** How hashed values are laid out as bytes. */
  datatype Encoder = Encoder(commit: (Digest, TrainingStep) -> seq<byte>, header: BlockHeader -> seq<byte>)

  /** The layout is the source's. The triggers keep the byte layout out of proofs that do not name it. */
  ghost predicate SourceLayout(e: Encoder) {
    && (forall p, s {:trigger CommitInput(p, s)} :: e.commit(p, s) == CommitInput(p, s))
    && (forall h {:trigger HeaderInput(h)} :: e.header(h) == HeaderInput(h))
  }

  /** A training step is the source's deterministic one. */
  ghost predicate SourceTraining(m: Mixer, train: (u64, u64, ModelState) -> TrainingStep) {
    forall seed, index, before {:trigger Deterministic(m, seed, index, before)} ::
      train(seed, index, before) == Deterministic(m, seed, index, before)
  }

  /** A chain's configuration and the ports it is run with: hash, mixer and sampler are parameters. */
  datatype Protocol = Protocol(
    config: ChainConfig,
    encode: Encoder,
    hash: seq<byte> -> Digest,
    mixer: Mixer,
    train: (u64, u64, ModelState) -> TrainingStep,
    sample: (nat, u64, Digest, u64) -> seq<u64>)

  // A mixer to show that rules exist.
  const FLAT_MIXER: Mixer := Mixer((seed, index) => 0, mixed => 0, (seed, index, model, mixed) => 0)

  type Rules = p: Protocol | SourceLayout(p.encode) && SourceTraining(p.mixer, p.train)
    ghost witness Protocol(
      ChainConfig(1, 1, 0),
      Encoder((p, s) => CommitInput(p, s), h => HeaderInput(h)),
      bytes => ZERO,
      FLAT_MIXER,
      (seed: u64, index: u64, model: ModelState) => Deterministic(FLAT_MIXER, seed, index, model),
      (n, count, root, entropy) => [])

  function Commit(r: Rules, previous: Digest, step: TrainingStep): Digest {
    r.hash(r.encode.commit(previous, step))
  }

  function HeaderHash(r: Rules, h: BlockHeader): Digest {
    r.hash(r.encode.header(h))
  }

  function BlockHash(r: Rules, b: Block): Digest {
    HeaderHash(r, b.header)
  }

  lemma {:induction false} LeRoundTrip(x: nat, n: nat)
    requires x < Pow2(8 * n)
    ensures FromLe(LeBytes(x, n)) == x
  {
    if n == 0 {
    } else {
      Pow2Adds(8, 8 * (n - 1));
      Pow8();
      assert x < 256 * Pow2(8 * (n - 1));
      LeRoundTrip(x / 256, n - 1);
      assert LeBytes(x, n)[1..] == LeBytes(x / 256, n - 1);
    }
  }

  lemma Pow64()
    ensures Pow2(64) == TWO64
  {
    Pow8();
    Pow2Adds(8, 8);
    Pow2Adds(16, 16);
    Pow2Adds(32, 32);
  }

  lemma {:induction false} WordsInjective(a: seq<u64>, b: seq<u64>)
    requires |a| == |b|
    requires WordBytes(a) == WordBytes(b)
    ensures a == b
  {
    if a == [] {
    } else {
      SplitEqual(LeBytes(a[0], 8), WordBytes(a[1..]), LeBytes(b[0], 8), WordBytes(b[1..]));
      Pow64();
      LeRoundTrip(a[0], 8);
      LeRoundTrip(b[0], 8);
      WordsInjective(a[1..], b[1..]);
      assert a == [a[0]] + a[1..] && b == [b[0]] + b[1..];
    }
  }

  lemma WeightsInjective(a: ModelState, b: ModelState)
    requires WeightWords(a) == WeightWords(b)
    ensures a == b
  {
    SignedWordsInjective(a.weights, b.weights);
  }

  lemma {:induction false} SignedWordsInjective(a: seq<i64>, b: seq<i64>)
    requires |a| == |b|
    requires SignedWords(a) == SignedWords(b)
    ensures a == b
  {
    if a == [] {
    } else {
      SplitEqual([Word(a[0])], SignedWords(a[1..]), [Word(b[0])], SignedWords(b[1..]));
      SignedWordsInjective(a[1..], b[1..]);
      assert a == [a[0]] + a[1..] && b == [b[0]] + b[1..];
    }
  }

  lemma WeightPairsInjective(a: ModelState, b: ModelState, c: ModelState, d: ModelState)
    requires WeightWords(a) + WeightWords(b) == WeightWords(c) + WeightWords(d)
    ensures a == c && b == d
  {
    SplitEqual(WeightWords(a), WeightWords(b), WeightWords(c), WeightWords(d));
    WeightsInjective(a, c);
    WeightsInjective(b, d);
  }

  /** Commitments hash an encoding that determines the step and the commitment before it. */
  lemma CommitInputInjective(p: Digest, s: TrainingStep, q: Digest, t: TrainingStep)
    requires CommitInput(p, s) == CommitInput(q, t)
    ensures p == q && s == t
  {
    var magic := CommitMagic();
    SplitEqual(magic, p.bytes + EncodeStep(s), magic, q.bytes + EncodeStep(t));
    SplitEqual(p.bytes, EncodeStep(s), q.bytes, EncodeStep(t));
    var stepMagic := StepMagic();
    SplitEqual(stepMagic, WordBytes(StepWords(s)), stepMagic, WordBytes(StepWords(t)));
    WordsInjective(StepWords(s), StepWords(t));
    var a := [s.index, s.seed, s.batchId, s.weightIndex, Word(s.gradient), Word(s.learningRatePpm)];
    var b := [t.index, t.seed, t.batchId, t.weightIndex, Word(t.gradient), Word(t.learningRatePpm)];
    assert a + (WeightWords(s.stateBefore) + WeightWords(s.stateAfter)) == StepWords(s);
    assert b + (WeightWords(t.stateBefore) + WeightWords(t.stateAfter)) == StepWords(t);
    SplitEqual(a, WeightWords(s.stateBefore) + WeightWords(s.stateAfter),
               b, WeightWords(t.stateBefore) + WeightWords(t.stateAfter));
    WeightPairsInjective(s.stateBefore, s.stateAfter, t.stateBefore, t.stateAfter);
    assert a[0] == b[0] && a[1] == b[1] && a[2] == b[2] && a[3] == b[3] && a[4] == b[4] && a[5] == b[5];
  }

  /** Block hashes are taken over an encoding that determines the header. */
  lemma HeaderInputInjective(g: BlockHeader, h: BlockHeader)
    requires HeaderInput(g) == HeaderInput(h)
    ensures g == h
  {
    SplitEqual(EncodeHeader(g), g.traceRoot.bytes, EncodeHeader(h), h.traceRoot.bytes);
    var magic := HeaderMagic();
    var g5, h5 := WordBytes([g.trainingSeed, g.samplingEntropy, g.sampleCount, g.nonce]),
                  WordBytes([h.trainingSeed, h.samplingEntropy, h.sampleCount, h.nonce]);
    var g4, h4 := g.traceRoot.bytes + g5, h.traceRoot.bytes + h5;
    var gm, hm := WeightWords(g.modelBefore) + WeightWords(g.modelAfter),
                  WeightWords(h.modelBefore) + WeightWords(h.modelAfter);
    var g3, h3 := WordBytes(gm) + g4, WordBytes(hm) + h4;
    var g2, h2 := g.previousBlock.bytes + g3, h.previousBlock.bytes + h3;
    SplitEqual(magic, WordBytes([g.height]) + g2, magic, WordBytes([h.height]) + h2);
    SplitEqual(WordBytes([g.height]), g2, WordBytes([h.height]), h2);
    SplitEqual(g.previousBlock.bytes, g3, h.previousBlock.bytes, h3);
    SplitEqual(WordBytes(gm), g4, WordBytes(hm), h4);
    SplitEqual(g.traceRoot.bytes, g5, h.traceRoot.bytes, h5);
    WordsInjective([g.height], [h.height]);
    WordsInjective(gm, hm);
    WeightPairsInjective(g.modelBefore, g.modelAfter, h.modelBefore, h.modelAfter);
    var gw, hw := [g.trainingSeed, g.samplingEntropy, g.sampleCount, g.nonce],
                  [h.trainingSeed, h.samplingEntropy, h.sampleCount, h.nonce];
    WordsInjective(gw, hw);
    assert gw[0] == hw[0] && gw[1] == hw[1] && gw[2] == hw[2] && gw[3] == hw[3];
    assert [g.height][0] == [h.height][0];
  }
}

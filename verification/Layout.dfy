/**
 * What one training step computes, and where each value sits in the bytes that are hashed: offsets as a decoder of these
 * bytes would use them.
 */
module Layout {
  import opened Prelude
  import opened Domain

  // ---------------------------------------------------------------- one training step

  /** `d` is an eighth of `g`, with the fraction dropped towards zero. */
  predicate IsEighth(g: int, d: int) {
    && (g >= 0 ==> 8 * d <= g < 8 * (d + 1))
    && (g <= 0 ==> 8 * (d - 1) < g <= 8 * d)
  }

  /** `y` is `x`, or the end of the 64-bit range next to it. */
  predicate IsClamped(x: int, y: i64) {
    && (-TWO63 <= x < TWO63 ==> y == x)
    && (x >= TWO63 ==> y == TWO63 - 1)
    && (x < -TWO63 ==> y == -TWO63)
  }

  lemma EighthOfGradient(g: int)
    ensures IsEighth(g, TruncDiv(g * LEARNING_RATE_PPM, 1_000_000))
  {
    var x := if g >= 0 then g else -g;
    var q := x * 125_000 / 1_000_000;
    assert q == x / 8;
    assert -(g * LEARNING_RATE_PPM) == (-g) * LEARNING_RATE_PPM;
  }

  /**
   * One training step: it records where it was taken, picks a weight and a gradient by remainders of what the mixer gives,
   * subtracts an eighth of the gradient from that weight, clamped at the ends of the range, and leaves all other weights.
   */
  lemma StepMeaning(m: Mixer, seed: u64, index: u64, before: ModelState)
    ensures var s, mixed := Deterministic(m, seed, index, before), m.step(seed, index);
            && s.index == index && s.seed == seed && s.stateBefore == before
            && s.batchId == m.batch(mixed) && s.learningRatePpm == 125_000
            && s.weightIndex < 8 && (mixed as int - s.weightIndex) % 8 == 0
            && -20 <= s.gradient <= 20 && (m.gradient(seed, index, before, mixed) as int - (s.gradient + 20)) % 41 == 0
            && (forall j :: 0 <= j < 8 && j != s.weightIndex ==> s.stateAfter.weights[j] == before.weights[j])
            && exists d: int ::
                 && IsEighth(s.gradient, d)
                 && IsClamped(before.weights[s.weightIndex] as int - d, s.stateAfter.weights[s.weightIndex])
  {
    var s := Deterministic(m, seed, index, before);
    EighthOfGradient(s.gradient);
    var d := TruncDiv(s.gradient * LEARNING_RATE_PPM, 1_000_000);
    assert IsEighth(s.gradient, d);
    assert IsClamped(before.weights[s.weightIndex] as int - d, s.stateAfter.weights[s.weightIndex]);
  }

  /** So a step with a gradient of eight or more lowers its weight, and one of minus eight or less raises it. */
  lemma StepDirection(m: Mixer, seed: u64, index: u64, before: ModelState)
    ensures var s := Deterministic(m, seed, index, before);
            var old', new' := before.weights[s.weightIndex] as int, s.stateAfter.weights[s.weightIndex] as int;
            && (s.gradient >= 8 ==> new' < old' || old' == -TWO63)
            && (s.gradient <= -8 ==> new' > old' || old' == TWO63 - 1)
            && (-8 < s.gradient < 8 ==> new' == old')
  {
    StepMeaning(m, seed, index, before);
  }

  // ---------------------------------------------------------------- words

  /** The number stored at an offset, least significant byte first. */
  function WordAt(b: seq<byte>, at: nat): nat
    requires at + 8 <= |b|
  {
    FromLe(b[at..at + 8])
  }

  /** The word stored at an offset is the two's complement of `x`. */
  predicate SignedAt(b: seq<byte>, at: nat, x: i64)
    requires at + 8 <= |b|
  {
    WordAt(b, at) < TWO64 && (WordAt(b, at) - x as int) % TWO64 == 0
  }

  /** Eight signed weights stored from an offset on. */
  predicate ModelAt(b: seq<byte>, at: nat, m: ModelState)
    requires at + 64 <= |b|
  {
    forall j: nat :: j < 8 ==> SignedAt(b, at + 8 * j, m.weights[j])
  }

  predicate Spells(b: seq<byte>, text: string) {
    |b| == |text| && forall i :: 0 <= i < |b| ==> b[i] == text[i] as int
  }

  lemma {:induction false} WordOf(ws: seq<u64>, k: nat)
    requires k < |ws|
    ensures WordAt(WordBytes(ws), 8 * k) == ws[k]
  {
    var b := WordBytes(ws);
    var first, rest := LeBytes(ws[0], 8), WordBytes(ws[1..]);
    if k == 0 {
      assert b[0..8] == first;
      Pow64();
      LeRoundTrip(ws[0], 8);
    } else {
      WordOf(ws[1..], k - 1);
      assert b[8 * k..8 * k + 8] == rest[8 * (k - 1)..8 * (k - 1) + 8];
    }
  }

  lemma {:induction false} SignedWordOf(m: seq<i64>, k: nat)
    requires k < |m|
    ensures SignedWords(m)[k] == Word(m[k])
  {
    if k > 0 {
      SignedWordOf(m[1..], k - 1);
    }
  }

  lemma WordMeaning(x: i64)
    ensures (Word(x) - x as int) % TWO64 == 0
  {
  }

  /** A piece of a text at an offset holds the words it was made of. */
  lemma WordInside(front: seq<byte>, ws: seq<u64>, back: seq<byte>, k: nat)
    requires k < |ws|
    ensures WordAt(front + WordBytes(ws) + back, |front| + 8 * k) == ws[k]
  {
    hide WordBytes, FromLe, WordAt;
    WordOf(ws, k);
    WordsInside(front, WordBytes(ws), back, 8 * k);
  }

  lemma WordsInside(front: seq<byte>, middle: seq<byte>, back: seq<byte>, at: nat)
    requires at + 8 <= |middle|
    ensures WordAt(front + middle + back, |front| + at) == WordAt(middle, at)
  {
    hide FromLe;
    SliceInside(front, middle, back, at, 8);
  }

  lemma SliceInside<T>(front: seq<T>, middle: seq<T>, back: seq<T>, k: nat, n: nat)
    requires k + n <= |middle|
    ensures (front + middle + back)[|front| + k..|front| + k + n] == middle[k..k + n]
  {
    assert front + middle + back == (front + middle[..k]) + (middle[k..k + n] + (middle[k + n..] + back));
  }

  lemma ModelInside(front: seq<byte>, before: seq<u64>, m: ModelState, after: seq<u64>, back: seq<byte>)
    ensures ModelAt(front + WordBytes(before + WeightWords(m) + after) + back, |front| + 8 * |before|, m)
  {
    hide WordBytes, FromLe, SignedWords, Word, WordAt;
    var ws := before + WeightWords(m) + after;
    forall j: nat | j < 8
      ensures SignedAt(front + WordBytes(ws) + back, |front| + 8 * |before| + 8 * j, m.weights[j])
    {
      WordInside(front, ws, back, |before| + j);
      SignedWordOf(m.weights, j);
      WordMeaning(m.weights[j]);
    }
  }

  lemma SignedInside(front: seq<byte>, ws: seq<u64>, back: seq<byte>, k: nat, x: i64)
    requires k < |ws| && ws[k] == Word(x)
    ensures SignedAt(front + WordBytes(ws) + back, |front| + 8 * k, x)
  {
    hide WordBytes, FromLe, Word, WordAt;
    WordInside(front, ws, back, k);
    WordMeaning(x);
  }

  // ---------------------------------------------------------------- offsets

  /** Where everything sits in the encoding of a training step. */
  lemma StepLayout(s: TrainingStep)
    ensures var b := EncodeStep(s);
            && |b| == 199 && Spells(b[..23], "chesscoin.trace-step.v1")
            && WordAt(b, 23) == s.index && WordAt(b, 31) == s.seed && WordAt(b, 39) == s.batchId
            && WordAt(b, 47) == s.weightIndex && SignedAt(b, 55, s.gradient) && SignedAt(b, 63, s.learningRatePpm)
            && ModelAt(b, 71, s.stateBefore) && ModelAt(b, 135, s.stateAfter)
  {
    hide WordBytes, FromLe, SignedWords, Word, StepMagic, WordAt, SignedAt, ModelAt;
    StepMagicText();
    var head := [s.index, s.seed, s.batchId, s.weightIndex, Word(s.gradient), Word(s.learningRatePpm)];
    var ws, front := StepWords(s), StepMagic();
    assert EncodeStep(s) == front + WordBytes(ws) + [];
    WordInside(front, ws, [], 0);
    WordInside(front, ws, [], 1);
    WordInside(front, ws, [], 2);
    WordInside(front, ws, [], 3);
    SignedInside(front, ws, [], 4, s.gradient);
    SignedInside(front, ws, [], 5, s.learningRatePpm);
    assert ws == head + WeightWords(s.stateBefore) + WeightWords(s.stateAfter);
    ModelInside(front, head, s.stateBefore, WeightWords(s.stateAfter), []);
    assert ws == (head + WeightWords(s.stateBefore)) + WeightWords(s.stateAfter) + [];
    ModelInside(front, head + WeightWords(s.stateBefore), s.stateAfter, [], []);
  }

  lemma StepMagicText()
    ensures |StepMagic()| == 23 && Spells(StepMagic(), "chesscoin.trace-step.v1")
  {
  }

  lemma CommitMagicText()
    ensures |CommitMagic()| == 19 && Spells(CommitMagic(), "chesscoin.commit.v1")
  {
  }

  lemma HeaderMagicText()
    ensures |HeaderMagic()| == 25 && Spells(HeaderMagic(), "chesscoin.block-header.v1")
  {
  }

  /** What is hashed for a commitment: the name of the hash, the commitment before, the step. */
  lemma CommitLayout(previous: Digest, s: TrainingStep)
    ensures var b := CommitInput(previous, s);
            && |b| == 250 && Spells(b[..19], "chesscoin.commit.v1")
            && b[19..51] == previous.bytes && b[51..] == EncodeStep(s)
  {
    hide EncodeStep;
    CommitMagicText();
    StepLayout(s);
  }

  /** What is hashed for a block, offset by offset. */
  lemma HeaderLayout(h: BlockHeader)
    ensures var b := HeaderInput(h);
            && |b| == 289 && Spells(b[..25], "chesscoin.block-header.v1")
            && WordAt(b, 25) == h.height && b[33..65] == h.previousBlock.bytes
            && ModelAt(b, 65, h.modelBefore) && ModelAt(b, 129, h.modelAfter)
            && b[193..225] == h.traceRoot.bytes
            && WordAt(b, 225) == h.trainingSeed && WordAt(b, 233) == h.samplingEntropy
            && WordAt(b, 241) == h.sampleCount && WordAt(b, 249) == h.nonce
            && b[257..] == h.traceRoot.bytes
  {
    hide WordBytes, FromLe, SignedWords, Word, HeaderMagic, WordAt, SignedAt, ModelAt;
    HeaderMagicText();
    var magic, previous, root := HeaderMagic(), h.previousBlock.bytes, h.traceRoot.bytes;
    var ws := WeightWords(h.modelBefore) + WeightWords(h.modelAfter);
    var numbers := [h.trainingSeed, h.samplingEntropy, h.sampleCount, h.nonce];
    var height, models, tail := WordBytes([h.height]), WordBytes(ws), WordBytes(numbers);
    var b := HeaderInput(h);
    var back := previous + models + root + tail + root;
    assert b == magic + height + back;
    WordInside(magic, [h.height], back, 0);
    var front := magic + height + previous;
    var rest := root + tail + root;
    assert b == front + models + rest;
    assert ws == [] + WeightWords(h.modelBefore) + WeightWords(h.modelAfter);
    ModelInside(front, [], h.modelBefore, WeightWords(h.modelAfter), rest);
    assert ws == WeightWords(h.modelBefore) + WeightWords(h.modelAfter) + [];
    ModelInside(front, WeightWords(h.modelBefore), h.modelAfter, [], rest);
    var all := front + models + root;
    assert b == all + tail + root;
    WordInside(all, numbers, root, 0);
    WordInside(all, numbers, root, 1);
    WordInside(all, numbers, root, 2);
    WordInside(all, numbers, root, 3);
  }
}

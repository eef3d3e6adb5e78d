/** `DeterministicSampler::sample_indices` (crates/chesscoin-node/src/adapters.rs) delivers proper samples. */
module Sampler {
  import opened Prelude
  import opened Domain
  import opened Training
  import opened Layout

  // "chesscoin.sample.v1", byte by byte.
  function SampleMagic(): seq<byte> {
    [99, 104, 101, 115, 115, 99, 111, 105, 110, 46, 115, 97, 109, 112, 108, 101, 46, 118, 49]
  }

  function SampleInput(root: Digest, entropy: u64, nonce: u64): seq<byte> {
    SampleMagic() + root.bytes + LeBytes(entropy, 8) + LeBytes(nonce, 8)
  }

  /** The position one nonce draws. */
  function Draw(hash: seq<byte> -> Digest, traceLength: u64, root: Digest, entropy: u64, nonce: u64): (index: u64)
    requires traceLength > 0
    ensures index < traceLength
  {
    FromLe(hash(SampleInput(root, entropy, nonce)).bytes[..8]) % traceLength
  }

  /** All positions that the nonces below `nonce` draw. */
  ghost function Drawn(hash: seq<byte> -> Digest, traceLength: u64, root: Digest, entropy: u64, nonce: nat): set<u64>
    requires traceLength > 0 && nonce <= TWO64
  {
    set k: nat | k < nonce :: Draw(hash, traceLength, root, entropy, k)
  }

  ghost function Elements(s: seq<u64>): set<u64> {
    set x | x in s
  }

  ghost predicate Distinct(s: seq<u64>) {
    forall i, j :: 0 <= i < j < |s| ==> s[i] != s[j]
  }

  ghost predicate Ascending(s: seq<u64>) {
    forall i, j :: 0 <= i < j < |s| ==> s[i] < s[j]
  }

  lemma {:induction false} DistinctCount(s: seq<u64>)
    requires Distinct(s)
    ensures |Elements(s)| == |s|
  {
    if s == [] {
    } else {
      var n := |s| - 1;
      DistinctCount(s[..n]);
      assert Elements(s) == Elements(s[..n]) + {s[n]};
      assert s[n] !in Elements(s[..n]);
    }
  }

  // ---------------------------------------------------------------- sorting

  function InsertSorted(x: u64, s: seq<u64>): seq<u64> {
    if s == [] || x <= s[0] then [x] + s else [s[0]] + InsertSorted(x, s[1..])
  }

  /** The ascending arrangement that `sort_unstable` produces. */
  function Sorted(s: seq<u64>): seq<u64> {
    if s == [] then [] else InsertSorted(s[0], Sorted(s[1..]))
  }

  lemma {:induction false} InsertSortedFacts(x: u64, s: seq<u64>)
    requires Ascending(s) && x !in s
    ensures Ascending(InsertSorted(x, s))
    ensures |InsertSorted(x, s)| == |s| + 1
    ensures forall y :: y in InsertSorted(x, s) <==> y == x || y in s
  {
    if s == [] || x <= s[0] {
      assert forall i :: 0 <= i < |s| ==> x < s[i];
    } else {
      InsertSortedFacts(x, s[1..]);
      var t := InsertSorted(x, s[1..]);
      forall i | 0 <= i < |t|
        ensures s[0] < t[i]
      {
        assert t[i] in t;
      }
      assert InsertSorted(x, s) == [s[0]] + t;
      assert s == [s[0]] + s[1..];
    }
  }

  lemma {:induction false} SortedFacts(s: seq<u64>)
    requires Distinct(s)
    ensures Ascending(Sorted(s))
    ensures |Sorted(s)| == |s|
    ensures forall y :: y in Sorted(s) <==> y in s
  {
    if s == [] {
    } else {
      SortedFacts(s[1..]);
      InsertSortedFacts(s[0], Sorted(s[1..]));
      assert s == [s[0]] + s[1..];
    }
  }

  // ---------------------------------------------------------------- sampling

  /**
   * `sample_indices` returns strictly ascending positions of the trace, as many as asked for and available: all of them,
   * or those that the first nonces draw, up to the first nonce with which they are enough. The source's nonce wraps, so
   * its rejection loop runs for ever exactly when all 2^64 nonces together draw too few positions; the model returns
   * `None` then.
   */
  method SampleIndices(hash: seq<byte> -> Digest, traceLength: u64, sampleCount: u64, root: Digest, entropy: u64)
    returns (result: Option<seq<u64>>)
    ensures result.Some? ==> IsSample(result.value, traceLength, sampleCount)
    ensures result.None? <==>
              && traceLength > 0
              && sampleCount < traceLength
              && |Drawn(hash, traceLength, root, entropy, TWO64)| < sampleCount
    ensures result.Some? && 0 < sampleCount < traceLength ==>
              exists n: nat ::
                && 0 < n <= TWO64
                && (forall x :: x in result.value <==> x in Drawn(hash, traceLength, root, entropy, n))
                && |Drawn(hash, traceLength, root, entropy, n - 1)| < sampleCount
  {
    hide Drawn, Draw, Elements, Sorted;
    if traceLength == 0 || sampleCount == 0 {
      return Some([]);
    }
    if sampleCount >= traceLength {
      return Some(seq(traceLength, i requires 0 <= i < traceLength => i));
    }
    var selected: seq<u64> := [];
    var nonce: nat := 0;
    NothingDrawn(hash, traceLength, root, entropy);
    while |selected| < sampleCount && nonce < TWO64
      invariant nonce <= TWO64
      invariant |selected| <= sampleCount
      invariant Distinct(selected)
      invariant forall i :: 0 <= i < |selected| ==> selected[i] < traceLength
      invariant Elements(selected) == Drawn(hash, traceLength, root, entropy, nonce)
      invariant nonce > 0 ==> |Drawn(hash, traceLength, root, entropy, nonce - 1)| < sampleCount
      invariant nonce == 0 ==> selected == []
      decreases TWO64 - nonce
    {
      DistinctCount(selected);
      var index := Draw(hash, traceLength, root, entropy, nonce);
      DrawnStep(hash, traceLength, root, entropy, nonce);
      ElementsAppend(selected, index);
      if index !in selected {
        selected := selected + [index];
      }
      nonce := nonce + 1;
    }
    DistinctCount(selected);
    DrawnGrows(hash, traceLength, root, entropy, nonce);
    if |selected| < sampleCount {
      return None;
    }
    SortedFacts(selected);
    var sorted := Sorted(selected);
    forall i | 0 <= i < |sorted|
      ensures sorted[i] < traceLength
    {
      assert sorted[i] in selected;
    }
    MembersAreElements(selected);
    assert forall x :: x in sorted <==> x in Drawn(hash, traceLength, root, entropy, nonce);
    return Some(sorted);
  }

  lemma NothingDrawn(hash: seq<byte> -> Digest, traceLength: u64, root: Digest, entropy: u64)
    requires traceLength > 0
    ensures Drawn(hash, traceLength, root, entropy, 0) == {} == Elements([])
  {
  }

  lemma MembersAreElements(s: seq<u64>)
    ensures forall x :: x in s <==> x in Elements(s)
  {
  }

  lemma ElementsAppend(s: seq<u64>, x: u64)
    ensures Elements(s + [x]) == Elements(s) + {x}
    ensures x in s <==> x in Elements(s)
  {
  }

  lemma DrawnStep(hash: seq<byte> -> Digest, traceLength: u64, root: Digest, entropy: u64, nonce: u64)
    requires traceLength > 0
    ensures Drawn(hash, traceLength, root, entropy, nonce as nat + 1)
            == Drawn(hash, traceLength, root, entropy, nonce) + {Draw(hash, traceLength, root, entropy, nonce)}
  {
    hide Draw;
    var a, b := Drawn(hash, traceLength, root, entropy, nonce as nat + 1),
                Drawn(hash, traceLength, root, entropy, nonce) + {Draw(hash, traceLength, root, entropy, nonce)};
    forall x
      ensures x in a <==> x in b
    {
    }
  }

  lemma DrawnGrows(hash: seq<byte> -> Digest, traceLength: u64, root: Digest, entropy: u64, nonce: nat)
    requires traceLength > 0 && nonce <= TWO64
    ensures Drawn(hash, traceLength, root, entropy, nonce) <= Drawn(hash, traceLength, root, entropy, TWO64)
    ensures |Drawn(hash, traceLength, root, entropy, nonce)| <= |Drawn(hash, traceLength, root, entropy, TWO64)|
  {
    SubsetSize(Drawn(hash, traceLength, root, entropy, nonce), Drawn(hash, traceLength, root, entropy, TWO64));
  }

  lemma SubsetSize(a: set<u64>, b: set<u64>)
    requires a <= b
    ensures |a| <= |b|
  {
    assert b == a + (b - a);
  }

  // ---------------------------------------------------------------- what is drawn

  lemma SampleMagicText()
    ensures |SampleMagic()| == 19 && Spells(SampleMagic(), "chesscoin.sample.v1")
  {
  }

  /** What is hashed for a draw, offset by offset: the name of the hash, the root, the entropy and the nonce. */
  lemma DrawLayout(root: Digest, entropy: u64, nonce: u64)
    ensures var b := SampleInput(root, entropy, nonce);
            && |b| == 67 && Spells(b[..19], "chesscoin.sample.v1")
            && b[19..51] == root.bytes && WordAt(b, 51) == entropy && WordAt(b, 59) == nonce
  {
    hide LeBytes, FromLe, SampleMagic;
    SampleMagicText();
    Pow64();
    LeRoundTrip(entropy, 8);
    LeRoundTrip(nonce, 8);
    var b := SampleInput(root, entropy, nonce);
    assert b[51..59] == LeBytes(entropy, 8) && b[59..67] == LeBytes(nonce, 8);
  }

  /** The position a nonce draws: the first eight bytes of the digest, as a number, modulo the length of the trace. */
  lemma DrawMeaning(hash: seq<byte> -> Digest, traceLength: u64, root: Digest, entropy: u64, nonce: u64)
    requires traceLength > 0
    ensures var index := Draw(hash, traceLength, root, entropy, nonce);
            && index < traceLength
            && (WordAt(hash(SampleInput(root, entropy, nonce)).bytes, 0) - index as int) % traceLength as int == 0
  {
    hide FromLe, SampleInput;
    var d := hash(SampleInput(root, entropy, nonce)).bytes;
    assert d[0..8] == d[..8];
    RestRemoved(WordAt(d, 0), traceLength);
  }

  lemma RestRemoved(x: nat, n: nat)
    requires n > 0
    ensures (x - x % n) % n == 0
  {
    MultipleHasNoRest(x / n, n);
    assert x == (x / n) * n + x % n;
  }

  lemma MultipleHasNoRest(k: nat, n: nat)
    requires n > 0
    ensures (k * n) % n == 0
  {
    ModOf(k, 0, n);
    assert k * n + 0 == k * n;
  }
}

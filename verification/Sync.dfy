/** Header-first sync: the locator, what a server answers to it, and which answers a requester accepts. */
module Sync {
  import opened Prelude
  import opened Domain
  import opened Digests
  import opened Validation
  import opened Binding
  import opened Chain

  // ---------------------------------------------------------------- the messages' contents

  /** `block_locator`: the newest hashes first; zero is appended when the list reaches the first block with room to spare. */
  function Locator(r: Rules, chain: seq<Block>, maxHashes: nat): seq<Digest> {
    var hashes := seq(Min(maxHashes, |chain|), i requires 0 <= i < Min(maxHashes, |chain|) =>
                        BlockHash(r, chain[|chain| - 1 - i]));
    if |chain| < maxHashes && chain != [] then hashes + [ZERO] else hashes
  }

  /** The first position of a hash in a chain, looking from position `from` on. */
  function Position(r: Rules, chain: seq<Block>, hash: Digest, from: nat): Option<nat>
    requires from <= |chain|
    decreases |chain| - from
  {
    if from == |chain| then None
    else if BlockHash(r, chain[from]) == hash then Some(from)
    else Position(r, chain, hash, from + 1)
  }

  /** Where the server starts: after the first locator hash it knows; zero stands for the very beginning. */
  function StartAfter(r: Rules, chain: seq<Block>, locator: seq<Digest>): nat {
    if locator == [] || locator[0] == ZERO then 0
    else
      match Position(r, chain, locator[0], 0)
      case Some(index) => index + 1
      case None => StartAfter(r, chain, locator[1..])
  }

  lemma {:induction false} PositionMeaning(r: Rules, chain: seq<Block>, hash: Digest, from: nat)
    requires from <= |chain|
    ensures match Position(r, chain, hash, from)
            case Some(i) => from <= i < |chain| && BlockHash(r, chain[i]) == hash
            case None => forall i :: from <= i < |chain| ==> BlockHash(r, chain[i]) != hash
    decreases |chain| - from
  {
    if from < |chain| {
      PositionMeaning(r, chain, hash, from + 1);
    }
  }

  /** `skip(start).take(limit)`. */
  function Slice(chain: seq<Block>, start: nat, limit: nat): seq<Block> {
    if start >= |chain| then [] else chain[start..Min(start + limit, |chain|)]
  }

  /** `blocks_after_locator`. */
  function BlocksAfter(r: Rules, chain: seq<Block>, locator: seq<Digest>, limit: nat): seq<Block> {
    Slice(chain, StartAfter(r, chain, locator), limit)
  }

  function Headers(blocks: seq<Block>): (headers: seq<BlockHeader>)
    ensures |headers| == |blocks|
  {
    seq(|blocks|, i requires 0 <= i < |blocks| => blocks[i].header)
  }

  function HeaderHashes(r: Rules, headers: seq<BlockHeader>): (hashes: seq<Digest>)
    ensures |hashes| == |headers|
  {
    seq(|headers|, i requires 0 <= i < |headers| => HeaderHash(r, headers[i]))
  }

  // ---------------------------------------------------------------- screening headers

  /** The height at which a non-empty header list must start; nothing if it does not attach where the locator allows. */
  function AttachHeight(r: Rules, chain: seq<Block>, locator: seq<Digest>, firstParent: Digest): Option<nat> {
    if firstParent == ZERO then
      if chain != [] && ZERO !in locator then None else Some(0)
    else if firstParent !in locator then None
    else
      match Position(r, chain, firstParent, 0)
      case Some(index) => Some(index + 1)
      case None => None
  }

  predicate HeaderFollows(r: Rules, headers: seq<BlockHeader>, start: nat, i: nat)
    requires i < |headers|
  {
    HeaderFits(r, ParentContext(start + i, if i == 0 then headers[0].previousBlock else HeaderHash(r, headers[i - 1]),
                                GENESIS_MODEL), headers[i])
  }

  /** `validate_headers_after_locator` accepts. */
  predicate HeadersAccepted(r: Rules, chain: seq<Block>, locator: seq<Digest>, headers: seq<BlockHeader>) {
    headers != [] ==>
      && AttachHeight(r, chain, locator, headers[0].previousBlock).Some?
      && forall i :: 0 <= i < |headers| ==>
           HeaderFollows(r, headers, AttachHeight(r, chain, locator, headers[0].previousBlock).value, i)
  }

  /** `validate_headers_after_locator`. */
  method ValidateHeadersAfterLocator(r: Rules, chain: seq<Block>, locator: seq<Digest>, headers: seq<BlockHeader>)
    returns (ok: bool)
    ensures ok == HeadersAccepted(r, chain, locator, headers)
  {
    if headers == [] {
      return true;
    }
    var firstParent := headers[0].previousBlock;
    var expectedHeight: nat := 0;
    if firstParent == ZERO {
      if chain != [] && ZERO !in locator {
        return false;
      }
    } else {
      if firstParent !in locator {
        return false;
      }
      PositionMeaning(r, chain, firstParent, 0);
      var parentIndex := 0;
      while parentIndex < |chain| && BlockHash(r, chain[parentIndex]) != firstParent
        invariant 0 <= parentIndex <= |chain|
        invariant Position(r, chain, firstParent, 0) == Position(r, chain, firstParent, parentIndex)
      {
        parentIndex := parentIndex + 1;
      }
      if parentIndex == |chain| {
        return false;
      }
      expectedHeight := parentIndex + 1;
    }
    ghost var start := expectedHeight;
    var expectedPrevious := firstParent;
    var i := 0;
    while i < |headers|
      invariant 0 <= i <= |headers|
      invariant expectedHeight == start + i
      invariant expectedPrevious == if i == 0 then firstParent else HeaderHash(r, headers[i - 1])
      invariant forall j :: 0 <= j < i ==> HeaderFollows(r, headers, start, j)
    {
      var header := headers[i];
      var hash := HeaderHash(r, header);
      var work := LeadingZeroBits(hash);
      if || header.previousBlock != expectedPrevious
         || header.height != expectedHeight
         || header.sampleCount != r.config.samplesPerBlock
         || work < r.config.difficultyZeroBits
      {
        assert !HeaderFollows(r, headers, start, i);
        return false;
      }
      expectedPrevious := hash;
      expectedHeight := expectedHeight + 1;
      i := i + 1;
    }
    return true;
  }

  /**
   * What accepted headers are. They start at the beginning, which the locator must allow unless the chain is empty, or
   * right behind a block of the chain whose hash is in the locator; each continues the one before it, and each has the
   * configured sample count and enough work.
   */
  lemma AcceptedHeadersMeaning(r: Rules, chain: seq<Block>, locator: seq<Digest>, headers: seq<BlockHeader>)
    requires headers != []
    ensures HeadersAccepted(r, chain, locator, headers) <==>
              && (if headers[0].previousBlock == ZERO then headers[0].height == 0 && (chain == [] || ZERO in locator)
                  else
                    && headers[0].previousBlock in locator
                    && exists i ::
                         && 0 <= i < |chain| && headers[0].height == i + 1
                         && BlockHash(r, chain[i]) == headers[0].previousBlock
                         && forall j :: 0 <= j < i ==> BlockHash(r, chain[j]) != headers[0].previousBlock)
              && (forall i :: 0 <= i < |headers| - 1 ==>
                    && headers[i + 1].previousBlock == HeaderHash(r, headers[i])
                    && headers[i + 1].height as int == headers[i].height as int + 1)
              && (forall i :: 0 <= i < |headers| ==>
                    && headers[i].sampleCount == r.config.samplesPerBlock
                    && ZeroBits(HeaderHash(r, headers[i]).bytes) >= r.config.difficultyZeroBits)
  {
    hide HeaderHash, BlockHash, ZeroBits;
    FirstPosition(r, chain, headers[0].previousBlock, 0);
    var attach := AttachHeight(r, chain, locator, headers[0].previousBlock);
    if HeadersAccepted(r, chain, locator, headers) {
      FollowsMeans(r, headers, attach.value);
    }
    if attach.Some? && headers[0].height == attach.value
       && (forall i :: 0 <= i < |headers| - 1 ==>
             && headers[i + 1].previousBlock == HeaderHash(r, headers[i])
             && headers[i + 1].height as int == headers[i].height as int + 1) {
      CountsUp(headers, attach.value);
    }
  }

  lemma FirstPosition(r: Rules, chain: seq<Block>, hash: Digest, from: nat)
    requires from <= |chain|
    ensures match Position(r, chain, hash, from)
            case Some(i) =>
              && from <= i < |chain| && BlockHash(r, chain[i]) == hash
              && forall j :: from <= j < i ==> BlockHash(r, chain[j]) != hash
            case None => forall i :: from <= i < |chain| ==> BlockHash(r, chain[i]) != hash
    decreases |chain| - from
  {
    hide BlockHash;
    if from < |chain| {
      FirstPosition(r, chain, hash, from + 1);
    }
  }

  lemma FollowsMeans(r: Rules, headers: seq<BlockHeader>, start: nat)
    requires forall i :: 0 <= i < |headers| ==> HeaderFollows(r, headers, start, i)
    ensures forall i :: 0 <= i < |headers| ==> headers[i].height == start + i
    ensures forall i :: 0 <= i < |headers| - 1 ==> headers[i + 1].previousBlock == HeaderHash(r, headers[i])
    ensures forall i :: 0 <= i < |headers| ==>
              && headers[i].sampleCount == r.config.samplesPerBlock
              && ZeroBits(HeaderHash(r, headers[i]).bytes) >= r.config.difficultyZeroBits
  {
    hide HeaderHash, ZeroBits;
    forall i | 0 <= i < |headers|
      ensures headers[i].height == start + i && headers[i].sampleCount == r.config.samplesPerBlock
      ensures ZeroBits(HeaderHash(r, headers[i]).bytes) >= r.config.difficultyZeroBits
      ensures i > 0 ==> headers[i].previousBlock == HeaderHash(r, headers[i - 1])
    {
      assert HeaderFollows(r, headers, start, i);
    }
  }

  lemma {:induction false} CountsUp(headers: seq<BlockHeader>, start: nat)
    requires headers != [] && headers[0].height == start
    requires forall i :: 0 <= i < |headers| - 1 ==> headers[i + 1].height as int == headers[i].height as int + 1
    ensures forall i :: 0 <= i < |headers| ==> headers[i].height == start + i
  {
    if |headers| > 1 {
      CountsUp(headers[1..], start + 1);
      forall i | 0 <= i < |headers|
        ensures headers[i].height == start + i
      {
        assert i > 0 ==> headers[i] == headers[1..][i - 1];
      }
    }
  }

  // ---------------------------------------------------------------- fork points

  /** A chain without a block whose hash reads as "no parent". */
  ghost predicate NoZeroHash(r: Rules, chain: seq<Block>) {
    forall i :: 0 <= i < |chain| ==> BlockHash(r, chain[i]) != ZERO
  }

  /** Blocks of the two chains with one hash are one block. */
  ghost predicate Agree(r: Rules, a: seq<Block>, b: seq<Block>) {
    forall i, j :: 0 <= i < |a| && 0 <= j < |b| && BlockHash(r, a[i]) == BlockHash(r, b[j]) ==> a[i] == b[j]
  }

  /** Two valid chains agree unless two of their blocks exhibit a hash collision. */
  lemma ValidChainsAgree(r: Rules, a: seq<Block>, b: seq<Block>)
    requires ValidChain(r, a) && ValidChain(r, b)
    requires forall i, j :: 0 <= i < |a| && 0 <= j < |b| ==> !Collide(r, a[i], b[j])
    ensures Agree(r, a, b)
  {
    hide Validate, Collide;
    forall i, j | 0 <= i < |a| && 0 <= j < |b| && BlockHash(r, a[i]) == BlockHash(r, b[j])
      ensures a[i] == b[j]
    {
      assert ValidAt(r, a, i) && ValidAt(r, b, j);
      BlockHashBindsBlock(r, ChainContext(r, a[..i]), a[i], ChainContext(r, b[..j]), b[j]);
    }
  }

  /** The number of blocks two chains have in common from the start. */
  function ForkPoint(a: seq<Block>, b: seq<Block>): (n: nat)
    ensures n <= |a| && n <= |b|
    ensures a[..n] == b[..n]
    ensures n < |a| && n < |b| ==> a[n] != b[n]
  {
    if a == [] || b == [] || a[0] != b[0] then 0 else 1 + ForkPoint(a[1..], b[1..])
  }

  lemma SharedHeight(r: Rules, a: seq<Block>, b: seq<Block>, i: nat, j: nat)
    requires ValidChain(r, a) && ValidChain(r, b) && Agree(r, a, b)
    requires i < |a| && j < |b| && BlockHash(r, a[i]) == BlockHash(r, b[j])
    ensures i == j && a[i] == b[j]
    ensures i > 0 ==> BlockHash(r, a[i - 1]) == BlockHash(r, b[j - 1])
  {
    hide Validate, ValidChain, HeaderFits;
    ValidChainLinks(r, a, i);
    ValidChainLinks(r, b, j);
  }

  /** A block shared by two agreeing valid chains is at one height, and so is everything before it. */
  lemma {:induction false} SharedBlock(r: Rules, a: seq<Block>, b: seq<Block>, i: nat, j: nat)
    requires ValidChain(r, a) && ValidChain(r, b) && Agree(r, a, b)
    requires i < |a| && j < |b| && BlockHash(r, a[i]) == BlockHash(r, b[j])
    ensures i == j && a[..i + 1] == b[..i + 1]
  {
    hide Validate, ValidChain, Agree;
    SharedHeight(r, a, b, i, j);
    if i > 0 {
      SharedBlock(r, a, b, i - 1, j - 1);
    }
    assert a[..i + 1] == a[..i] + [a[i]] && b[..i + 1] == b[..i] + [b[i]];
  }

  /** A common prefix is no longer than the fork point. */
  lemma {:induction false} ForkPointIsLongest(a: seq<Block>, b: seq<Block>, n: nat)
    requires n <= |a| && n <= |b| && a[..n] == b[..n]
    ensures n <= ForkPoint(a, b)
  {
    if n > 0 {
      assert a[0] == a[..n][0] == b[..n][0] == b[0];
      assert a[1..][..n - 1] == a[..n][1..] && b[1..][..n - 1] == b[..n][1..];
      ForkPointIsLongest(a[1..], b[1..], n - 1);
    }
  }

  lemma HashesAreDistinct(r: Rules, a: seq<Block>, i: nat)
    requires ValidChain(r, a) && Agree(r, a, a) && i < |a|
    ensures Position(r, a, BlockHash(r, a[i]), 0) == Some(i)
  {
    hide Validate;
    PositionMeaning(r, a, BlockHash(r, a[i]), 0);
    var p := Position(r, a, BlockHash(r, a[i]), 0);
    if p.Some? {
      SharedBlock(r, a, a, i, p.value);
    }
  }

  /** The other chain knows the block at height `i` exactly if `i` is below the fork point, and then at height `i`. */
  lemma PositionInOther(r: Rules, a: seq<Block>, b: seq<Block>, i: nat)
    requires ValidChain(r, a) && ValidChain(r, b) && Agree(r, a, b)
    requires i < |a|
    ensures Position(r, b, BlockHash(r, a[i]), 0) == if i < ForkPoint(a, b) then Some(i) else None
  {
    hide Validate;
    PositionMeaning(r, b, BlockHash(r, a[i]), 0);
    var p, n := Position(r, b, BlockHash(r, a[i]), 0), ForkPoint(a, b);
    if p.Some? {
      SharedBlock(r, a, b, i, p.value);
      ForkPointIsLongest(a, b, i + 1);
    }
    if i < n {
      assert a[i] == a[..n][i] == b[..n][i] == b[i];
    }
  }

  /** Is the last common block among the `maxHashes` newest of the requester's chain, or its chain short enough? */
  predicate InWindow(a: seq<Block>, b: seq<Block>, maxHashes: nat) {
    ForkPoint(a, b) + maxHashes > |a|
  }

  lemma {:induction false} StartFromLocator(r: Rules, a: seq<Block>, b: seq<Block>, maxHashes: nat, k: nat)
    requires ValidChain(r, a) && ValidChain(r, b) && Agree(r, a, b) && NoZeroHash(r, a)
    requires k <= Min(maxHashes, |a|)
    requires ForkPoint(a, b) <= |a| - k
    ensures StartAfter(r, b, Locator(r, a, maxHashes)[k..]) ==
              if InWindow(a, b, maxHashes) then ForkPoint(a, b) else 0
    decreases |a| - k
  {
    hide Validate, ValidChain, Agree;
    var locator := Locator(r, a, maxHashes);
    if k < Min(maxHashes, |a|) {
      var i := |a| - 1 - k;
      assert locator[k..][0] == BlockHash(r, a[i]);
      PositionInOther(r, a, b, i);
      if i >= ForkPoint(a, b) {
        assert locator[k..][1..] == locator[k + 1..];
        StartFromLocator(r, a, b, maxHashes, k + 1);
      }
    } else if |a| < maxHashes && a != [] {
      assert locator[k..][0] == ZERO;
    } else {
      assert locator[k..] == [];
    }
  }

  /**
   * The server starts exactly after the last common block whenever that block is within the locator's window, and from
   * the very beginning otherwise; so it answers with its own suffix, cut to the limit.
   */
  lemma ServerFindsForkPoint(r: Rules, a: seq<Block>, b: seq<Block>, maxHashes: nat, limit: nat)
    requires ValidChain(r, a) && ValidChain(r, b) && Agree(r, a, b) && NoZeroHash(r, a)
    ensures BlocksAfter(r, b, Locator(r, a, maxHashes), limit) ==
              Slice(b, if InWindow(a, b, maxHashes) then ForkPoint(a, b) else 0, limit)
  {
    hide Validate, Slice;
    StartFromLocator(r, a, b, maxHashes, 0);
    assert Locator(r, a, maxHashes)[0..] == Locator(r, a, maxHashes);
  }

  // ---------------------------------------------------------------- which answers pass screening

  lemma SliceFollows(r: Rules, b: seq<Block>, start: nat, limit: nat, i: nat)
    requires ValidChain(r, b)
    requires i < |Slice(b, start, limit)|
    ensures HeaderFollows(r, Headers(Slice(b, start, limit)), start, i)
  {
    hide Validate, ValidChain;
    ValidChainLinks(r, b, start + i);
    var headers := Headers(Slice(b, start, limit));
    if i > 0 {
      assert headers[i - 1] == b[start + i - 1].header;
    }
  }

  lemma LocatorHolds(r: Rules, a: seq<Block>, maxHashes: nat, i: nat)
    requires i < |a| && i + maxHashes >= |a|
    ensures BlockHash(r, a[i]) in Locator(r, a, maxHashes)
  {
    var k := |a| - 1 - i;
    assert Locator(r, a, maxHashes)[k] == BlockHash(r, a[i]);
  }

  lemma FullLocatorHasNoZero(r: Rules, a: seq<Block>, maxHashes: nat)
    requires NoZeroHash(r, a) && (maxHashes <= |a|)
    ensures ZERO !in Locator(r, a, maxHashes)
  {
    var locator := Locator(r, a, maxHashes);
    forall k | 0 <= k < |locator|
      ensures locator[k] != ZERO
    {
      assert locator[k] == BlockHash(r, a[|a| - 1 - k]);
    }
  }

  /** The server's answer attaches at the fork point exactly when the fork point is in the window. */
  lemma AnswerAttaches(r: Rules, a: seq<Block>, b: seq<Block>, maxHashes: nat)
    requires ValidChain(r, a) && ValidChain(r, b) && Agree(r, a, b) && Agree(r, a, a)
    requires NoZeroHash(r, a) && NoZeroHash(r, b)
    requires InWindow(a, b, maxHashes) && ForkPoint(a, b) < |b|
    ensures AttachHeight(r, a, Locator(r, a, maxHashes), b[ForkPoint(a, b)].header.previousBlock) == Some(ForkPoint(a, b))
  {
    hide Validate, ValidChain, Agree;
    var n := ForkPoint(a, b);
    ValidChainLinks(r, b, n);
    if n > 0 {
      assert a[n - 1] == a[..n][n - 1] == b[..n][n - 1] == b[n - 1];
      LocatorHolds(r, a, maxHashes, n - 1);
      HashesAreDistinct(r, a, n - 1);
    } else if a != [] {
      var locator := Locator(r, a, maxHashes);
      assert locator[|a|] == ZERO;
    }
  }

  /**
   * An honest server's answer passes screening exactly when it is empty, the requester has no blocks, or the fork point
   * is within the requester's locator window. In particular a requester whose chain is longer than its locator and
   * whose fork lies deeper refuses every honest answer.
   */
  lemma HonestAnswerAccepted(r: Rules, a: seq<Block>, b: seq<Block>, maxHashes: nat, limit: nat)
    requires ValidChain(r, a) && ValidChain(r, b) && Agree(r, a, b) && Agree(r, a, a)
    requires NoZeroHash(r, a) && NoZeroHash(r, b)
    ensures var locator := Locator(r, a, maxHashes);
            var headers := Headers(BlocksAfter(r, b, locator, limit));
            HeadersAccepted(r, a, locator, headers) <==> headers == [] || a == [] || InWindow(a, b, maxHashes)
  {
    hide Validate, ValidChain, Agree, HeaderFollows, Locator, StartAfter, BlocksAfter, NoZeroHash;
    var locator := Locator(r, a, maxHashes);
    ServerFindsForkPoint(r, a, b, maxHashes, limit);
    var start := if InWindow(a, b, maxHashes) then ForkPoint(a, b) else 0;
    var blocks := Slice(b, start, limit);
    forall i: nat | i < |blocks|
      ensures HeaderFollows(r, Headers(blocks), start, i)
    {
      SliceFollows(r, b, start, limit, i);
    }
    if blocks != [] {
      assert Headers(blocks)[0] == b[start].header;
      if InWindow(a, b, maxHashes) {
        AnswerAttaches(r, a, b, maxHashes);
      } else {
        ValidChainLinks(r, b, 0);
        FullLocatorHasNoZero(r, a, maxHashes);
      }
    }
  }
}

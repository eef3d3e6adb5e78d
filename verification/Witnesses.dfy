/**
 * Concrete rules and states for the theorems about what goes wrong: a tip whose children do not take over, a reorg count
 * for a chain that was only extended, a sync that stalls, and a block that hashes to the zero digest.
 */
module Witnesses {
  import opened Prelude
  import opened Domain
  import opened Digests
  import opened Validation
  import opened Training
  import opened ForkTree
  import opened Chain
  import opened ForkOrder
  import opened TipOrder
  import opened Node
  import opened Sync
  import opened SyncProtocol
  import opened SyncProgress
  import opened SyncLiveness
  import opened SyncResults

  // ---------------------------------------------------------------- rules with a readable hash

  /** A digest that shows a seed and a number. */
  function Label(seed: byte, n: nat): Digest {
    Digest(ZeroBytes(29) + [seed, n / 256 % 256, n % 256])
  }

  /** Does a text contain a K in front of a 1, as the tag of a stored record does? */
  predicate Marked(bytes: seq<byte>) {
    exists i :: 0 <= i < |bytes| - 1 && bytes[i] == 75 && bytes[i + 1] == 49
  }

  /**
   * A hash that keeps, of a block header, the low bytes of its training seed and of its height, and of a text its length
   * and whether a record's tag is in it. What is hashed for blocks starts with a small c.
   */
  function LabelHash(offset: nat, bytes: seq<byte>): Digest {
    if |bytes| > 225 && bytes[0] == 99 then Label(bytes[225], bytes[25] as nat + 256 * bytes[26] as nat + offset)
    else if Marked(bytes) then Label(255, 0)
    else Label(0, |bytes|)
  }

  function FirstPositions(n: nat, count: u64): seq<u64> {
    seq(Min(n, count), i requires 0 <= i < Min(n, count) => i)
  }

  /** One step and one sample per block. */
  ghost function LabelRules(difficulty: u32, offset: nat): Rules {
    Protocol(
      ChainConfig(1, 1, difficulty),
      Encoder((p, s) => CommitInput(p, s), h => HeaderInput(h)),
      bytes => LabelHash(offset, bytes),
      FLAT_MIXER,
      (seed: u64, index: u64, model: ModelState) => Deterministic(FLAT_MIXER, seed, index, model),
      (n: nat, count: u64, root, entropy) => FirstPositions(n, count))
  }

  lemma LabelSampler(difficulty: u32, offset: nat)
    ensures SamplerSound(LabelRules(difficulty, offset))
  {
    var r := LabelRules(difficulty, offset);
    forall n: nat, count: u64, root, entropy
      ensures IsSample(r.sample(n, count, root, entropy), n, count)
    {
      assert r.sample(n, count, root, entropy) == FirstPositions(n, count);
    }
  }

  lemma LabelsDiffer(a: byte, m: nat, b: byte, n: nat)
    requires m < 65536 && n < 65536
    ensures Label(a, m) == Label(b, n) <==> a == b && m == n
    ensures Label(a, m) == ZERO <==> a == 0 && m == 0
  {
    var x, y := Label(a, m).bytes, Label(b, n).bytes;
    assert x[29] == a && x[30] == m / 256 && x[31] == m % 256;
    assert y[29] == b && y[30] == n / 256 && y[31] == n % 256;
    if a == 0 && m == 0 {
      assert x == ZERO.bytes;
    }
    assert ZERO.bytes[29] == 0 && ZERO.bytes[30] == 0 && ZERO.bytes[31] == 0;
  }

  lemma {:induction false} ZeroBitsOfZeros(k: nat, rest: seq<byte>)
    ensures ZeroBits(ZeroBytes(k) + rest) == 8 * k + ZeroBits(rest)
  {
    var all := ZeroBytes(k) + rest;
    if k == 0 {
      assert all == rest;
    } else {
      assert all[0] == 0 && all[1..] == ZeroBytes(k - 1) + rest;
      ZeroBitsOfZeros(k - 1, rest);
    }
  }

  lemma FirstBytes(x: u64, more: seq<u64>)
    ensures |WordBytes([x] + more)| >= 8
    ensures WordBytes([x] + more)[0] == x % 256 && WordBytes([x] + more)[1] == x / 256 % 256
  {
    var b := LeBytes(x, 8);
    assert b[1..] == LeBytes(x / 256, 7);
    assert ([x] + more)[0] == x && ([x] + more)[1..] == more;
  }

  /** Where the hashed bytes of a header show the height and the seed. */
  lemma HeaderBytes(h: BlockHeader)
    ensures |HeaderInput(h)| > 225 && HeaderInput(h)[0] == 99
    ensures HeaderInput(h)[25] == h.height % 256 && HeaderInput(h)[26] == h.height / 256 % 256
    ensures HeaderInput(h)[225] == h.trainingSeed % 256
  {
    hide LeBytes, WordBytes, WeightWords;
    var tail := WordBytes([h.trainingSeed, h.samplingEntropy, h.sampleCount, h.nonce]);
    var models := WordBytes(WeightWords(h.modelBefore) + WeightWords(h.modelAfter));
    var height := WordBytes([h.height]);
    FirstBytes(h.height, []);
    assert [h.height] + [] == [h.height];
    FirstBytes(h.trainingSeed, [h.samplingEntropy, h.sampleCount, h.nonce]);
    assert [h.trainingSeed] + [h.samplingEntropy, h.sampleCount, h.nonce]
           == [h.trainingSeed, h.samplingEntropy, h.sampleCount, h.nonce];
    var bytes := HeaderInput(h);
    var front := HeaderMagic() + height + h.previousBlock.bytes + models + h.traceRoot.bytes;
    assert bytes == front + tail + h.traceRoot.bytes;
    assert |front| == 225 && bytes[225] == tail[0];
    assert bytes[25] == height[0] && bytes[26] == height[1];
    assert bytes[0] == HeaderMagic()[0] == 99;
  }

  lemma LabelOfHeader(r: Rules, difficulty: u32, offset: nat, h: BlockHeader)
    requires r == LabelRules(difficulty, offset) && h.height < 65536
    ensures HeaderHash(r, h) == Label(h.trainingSeed % 256, h.height + offset)
    ensures ZeroBits(HeaderHash(r, h).bytes) >= 232
  {
    hide HeaderInput;
    HeaderBytes(h);
    assert r.encode.header(h) == HeaderInput(h);
    ZeroBitsOfZeros(29, [h.trainingSeed % 256, (h.height + offset) / 256 % 256, (h.height + offset) % 256]);
  }

  /** Under these rules the first nonce works. */
  lemma FirstNonceWorks(r: Rules, difficulty: u32, offset: nat, parent: ParentContext, seed: u64)
    requires r == LabelRules(difficulty, offset) && difficulty <= 120 && parent.height < 65536
    ensures Mined(r, parent, seed, 0, 0) == Some(Candidate(r, parent, seed, 0, 0))
    ensures BlockHash(r, Candidate(r, parent, seed, 0, 0)) == Label(seed % 256, parent.height + offset)
    ensures Validate(r, parent, Candidate(r, parent, seed, 0, 0)).Pass?
  {
    hide Validate, Label, LabelRules, HonestTrace, SamplerSound;
    LabelOfHeader(r, difficulty, offset, Candidate(r, parent, seed, 0, 0).header);
    RulesDifficulty(difficulty, offset);
    LabelSampler(difficulty, offset);
    MinedBlockIsValid(r, parent, seed, 0);
  }

  lemma RulesDifficulty(difficulty: u32, offset: nat)
    ensures LabelRules(difficulty, offset).config == ChainConfig(1, 1, difficulty)
  {
  }

  // ---------------------------------------------------------------- rows of blocks

  /** The tree is a single row of `n` blocks mined with one seed. */
  ghost predicate IsRow(r: Rules, t: Tree, seed: byte, n: nat) {
    && WellFormed(r, t)
    && (forall h {:trigger t.nodes[h]} :: h in t.nodes ==>
          && 1 <= t.nodes[h].nextHeight <= n
          && h == Label(seed, t.nodes[h].nextHeight)
          && t.nodes[h].block.header.trainingSeed == seed as int)
    && (forall k: nat {:trigger Label(seed, k)} :: 1 <= k <= n ==>
          Label(seed, k) in t.nodes && t.nodes[Label(seed, k)].nextHeight == k)
  }

  function RowEnd(t: Tree, seed: byte, n: nat): ParentContext {
    if n == 0 || Label(seed, n) !in t.nodes then GENESIS
    else ParentContext(n, Label(seed, n), t.nodes[Label(seed, n)].block.header.modelAfter)
  }

  /** The next block of a row. */
  lemma RowNext(r: Rules, difficulty: u32, t: Tree, seed: byte, n: nat) returns (b: Block)
    requires r == LabelRules(difficulty, 1) && difficulty <= 120 && n < 1000 && IsRow(r, t, seed, n)
    ensures BlockHash(r, b) == Label(seed, n + 1) && BlockHash(r, b) !in t.nodes && BlockHash(r, b) != ZERO
    ensures b.header.height == n && (n > 0 ==> b.header.previousBlock == Label(seed, n))
    ensures Insert(r, t, b).1.Ok?
    ensures IsRow(r, Insert(r, t, b).0, seed, n + 1)
  {
    hide Validate, IsBetterTip, NodeOk, Label, LabelRules, HonestTrace, WellFormed, Insert;
    var parent := RowEnd(t, seed, n);
    b := Candidate(r, parent, seed, 0, 0);
    FirstNonceWorks(r, difficulty, 1, parent, seed);
    LabelsDiffer(seed, n + 1, seed, n + 1);
    if n > 0 {
      LabelsDiffer(seed, n, seed, n + 1);
    }
    RowKeysBelow(r, t, seed, n);
    RowAccepts(r, t, seed, n, b);
    InsertKeepsWellFormed(r, t, b);
    var u := Insert(r, t, b).0;
    forall k: nat | 1 <= k <= n + 1
      ensures Label(seed, k) in u.nodes && u.nodes[Label(seed, k)].nextHeight == k
    {
      LabelsDiffer(seed, k, seed, n + 1);
    }
  }

  lemma RowKeysBelow(r: Rules, t: Tree, seed: byte, n: nat)
    requires n < 1000 && IsRow(r, t, seed, n)
    ensures Label(seed, n + 1) !in t.nodes
  {
    hide WellFormed, Label;
    if Label(seed, n + 1) in t.nodes {
      LabelsDiffer(seed, n + 1, seed, t.nodes[Label(seed, n + 1)].nextHeight);
    }
  }

  lemma RowAccepts(r: Rules, t: Tree, seed: byte, n: nat, b: Block)
    requires IsRow(r, t, seed, n) && n < 1000
    requires Validate(r, RowEnd(t, seed, n), b).Pass? && BlockHash(r, b) !in t.nodes
    requires b.header.height == n && b.header.previousBlock == (if n == 0 then ZERO else Label(seed, n))
    requires n > 0 ==> Label(seed, n) != ZERO
    ensures Insert(r, t, b).1.Ok?
    ensures var u := Insert(r, t, b).0;
            && Grows(t, u) && u.nodes.Keys == t.nodes.Keys + {BlockHash(r, b)}
            && u.nodes[BlockHash(r, b)].nextHeight == n + 1 && u.nodes[BlockHash(r, b)].block == b
  {
    hide Validate, IsBetterTip, Label;
    if n > 0 {
      RowHash(r, t, seed, n);
    }
    assert ContextFor(t, b) == Some(RowEnd(t, seed, n));
  }

  lemma RowHash(r: Rules, t: Tree, seed: byte, n: nat)
    requires IsRow(r, t, seed, n) && n > 0
    ensures Label(seed, n) in t.nodes && t.nodes[Label(seed, n)].hash == Label(seed, n)
    ensures t.nodes[Label(seed, n)].nextHeight == n
  {
    hide Validate, IsBetterTip, Label;
    assert Label(seed, n) in t.nodes;
    assert NodeOk(r, t, Label(seed, n));
  }

  lemma {:induction false} GrowRow(r: Rules, difficulty: u32, seed: byte, n: nat) returns (t: Tree)
    requires r == LabelRules(difficulty, 1) && difficulty <= 120 && n <= 1000
    ensures IsRow(r, t, seed, n)
  {
    hide Validate, IsBetterTip, NodeOk, Label, LabelRules, WellFormed, Insert;
    if n == 0 {
      t := EMPTY;
      EmptyIsWellFormed(r);
    } else {
      var shorter := GrowRow(r, difficulty, seed, n - 1);
      var b := RowNext(r, difficulty, shorter, seed, n - 1);
      t := Insert(r, shorter, b).0;
    }
  }

  /** Where the best tip of a row is, given a block of the row that beats every other. */
  lemma RowBest(r: Rules, t: Tree, seed: byte, n: nat, top: nat)
    requires IsRow(r, t, seed, n) && 1 <= top <= n <= 1000
    requires forall k: nat | 1 <= k <= n && k != top :: RanksAbove(r, top, Label(seed, top), k, Label(seed, k))
    ensures t.bestTip == Some(Label(seed, top)) && BestHeight(t) == top
  {
    hide Validate, IsBetterTip, NodeOk, Label, RanksAbove;
    RowHash(r, t, seed, n);
    var h := Label(seed, top);
    assert h in t.nodes;
    BestIsUnbeaten(r, t, h);
    var best := t.bestTip.value;
    RankDecides(r, t, h, best);
  }

  lemma RowIsZeroFree(r: Rules, t: Tree, seed: byte, n: nat)
    requires IsRow(r, t, seed, n) && n <= 1000
    ensures ZeroFree(t)
  {
    hide WellFormed, Label;
    if ZERO in t.nodes {
      LabelsDiffer(seed, t.nodes[ZERO].nextHeight, 0, 0);
    }
  }

  // ---------------------------------------------------------------- scores that wrap

  /** The hypotheses of `TipOrder.TipAt255IsReplacedExactly` are met: a tip at height 255, and a child of it. */
  lemma TipAt255Exists() returns (r: Rules, t: Tree, b: Block)
    ensures WellFormed(r, t) && r.config.difficultyZeroBits == 120 && ZeroFree(t)
    ensures t.bestTip.Some? && BestHeight(t) == 255
    ensures BlockHash(r, b) !in t.nodes && Insert(r, t, b).1.Ok?
    ensures b.header.previousBlock == t.bestTip.value
    ensures Insert(r, t, b).0.bestTip == t.bestTip
  {
    hide Validate, IsBetterTip, NodeOk, Label, LabelRules, WellFormed, Insert, Number, Period;
    r := LabelRules(120, 1);
    RulesDifficulty(120, 1);
    HighDifficultyPeriod(r);
    t := GrowRow(r, 120, 1, 255);
    RowBest(r, t, 1, 255, 255);
    RowIsZeroFree(r, t, 1, 255);
    b := RowNext(r, 120, t, 1, 255);
    TipAt255IsReplacedExactly(r, t, b);
  }

  /** A view that shows the best branch of a tree. */
  ghost function ViewOf(t: Tree): NodeView
    requires Linked(t)
  {
    NodeView(BestChain(t), t, false, [], 0, 0, 0, 0, 0, 0)
  }

  /**
   * A node at height 255 that knows the blocks above receives the block at height 511: its active chain grows by 256
   * blocks at once, on the same branch, and the code counts a reorg.
   */
  lemma SkipAheadExists(disk: Disk) returns (r: Rules, v: NodeView, b: Block)
    ensures ViewIsBestBranch(r, v) && ZeroFree(Insert(r, v.tree, b).0)
    ensures |v.chain| == 255
    ensures var w := Applied(r, v, b, Gossip, disk).0;
            && SkipsAhead(v.chain, w.chain) && |w.chain| == 511
            && w.reorgs == v.reorgs + 1
  {
    hide Validate, IsBetterTip, NodeOk, Label, LabelRules, WellFormed, Insert, Number, Period, Applied, PathTo;
    r := LabelRules(120, 1);
    RulesDifficulty(120, 1);
    HighDifficultyPeriod(r);
    var t := GrowRow(r, 120, 1, 510);
    RowBest(r, t, 1, 510, 255);
    b := RowNext(r, 120, t, 1, 510);
    var u := Insert(r, t, b).0;
    RowBest(r, u, 1, 511, 511);
    RowIsZeroFree(r, u, 1, 511);
    BestChainFacts(r, t);
    BestChainFacts(r, u);
    v := ViewOf(t);
    AppliedTree(r, v, b, Gossip, disk);
    AppliedKeepsView(r, v, b, Gossip, disk);
    ReorgCountIsExact(r, v, b, Gossip, disk);
    RowPrefix(r, t, u, 1, 510, 255);
  }

  /** The block at height `k` of a row, and the path to it. */
  lemma RowPath(r: Rules, t: Tree, seed: byte, n: nat, k: nat)
    requires IsRow(r, t, seed, n) && Linked(t) && 1 <= k <= n <= 1000
    ensures Label(seed, n) in t.nodes && Label(seed, k) in t.nodes && n == |PathTo(t, Label(seed, n))|
    ensures PathTo(t, Label(seed, n))[..k] == PathTo(t, Label(seed, k))
    ensures PathTo(t, Label(seed, n))[k - 1].header.trainingSeed == seed as int
  {
    hide Validate, IsBetterTip, NodeOk, Label, PathTo;
    RowHash(r, t, seed, n);
    var h := Label(seed, n);
    RowNodes(r, t);
    PathBlock(r, t, h, k);
    PathIsValidChain(r, t, h);
    PathPrefix(r, t, h, k - 1);
    assert BlockHash(r, PathTo(t, h)[k - 1]) == Label(seed, k);
  }

  lemma RowNodes(r: Rules, t: Tree)
    requires WellFormed(r, t)
    ensures NodesOk(r, t)
  {
    hide NodeOk;
  }

  lemma RowPrefix(r: Rules, t: Tree, u: Tree, seed: byte, n: nat, k: nat)
    requires IsRow(r, t, seed, n) && IsRow(r, u, seed, n + 1) && Grows(t, u) && Linked(t) && Linked(u)
    requires 1 <= k <= n < 1000
    requires t.bestTip == Some(Label(seed, k)) && u.bestTip == Some(Label(seed, n + 1))
    ensures BestChain(t) <= BestChain(u)
  {
    hide Validate, IsBetterTip, NodeOk, Label, PathTo, WellFormed;
    RowPath(r, u, seed, n + 1, k);
    RowPath(r, t, seed, n, k);
    PathStable(t, u, Label(seed, k));
  }

  // ---------------------------------------------------------------- sync that stalls

  /** The node at the end of a row that fits into one period. */
  lemma RowPeer(r: Rules, difficulty: u32, seed: byte, n: nat, maxLocator: nat, maxBlocks: nat) returns (p: Peer)
    requires r == LabelRules(difficulty, 1) && difficulty <= 120 && 1 <= n < 256
    ensures p.maxLocator == maxLocator && p.maxBlocks == maxBlocks
    ensures IsRow(r, p.view.tree, seed, n) && ViewIsBestBranch(r, p.view) && ZeroFree(p.view.tree)
    ensures |p.view.chain| == n && p.view.chain[0].header.trainingSeed == seed as int
    ensures p.view.tree.bestTip == Some(Label(seed, n))
  {
    hide Validate, IsBetterTip, NodeOk, Label, LabelRules, WellFormed, Number, Period, PathTo;
    var t := GrowRow(r, difficulty, seed, n);
    forall k: nat | k < 256
      ensures k % Period(r) == k
    {
      SmallMod(k, Period(r));
    }
    RowBest(r, t, seed, n, n);
    RowIsZeroFree(r, t, seed, n);
    BestChainFacts(r, t);
    RowPath(r, t, seed, n, 1);
    p := Peer(ViewOf(t), maxLocator, maxBlocks);
  }

  /**
   * Two nodes with branches of two and three blocks, and responses of one block: the requester keeps its shorter branch
   * for ever, although no hash collides and the fork point is in its window.
   */
  lemma StalledPairExists(disk: Disk) returns (r: Rules, a: Peer, server: Peer)
    ensures Comparable(r, a, server) && !TreesCollide(r, a.view.tree, server.view.tree)
    ensures WellFormed(r, a.view.tree)
    ensures CanSync(a, server) && 1 <= a.maxBlocks && 1 <= server.maxBlocks
    ensures |a.view.chain| < |server.view.chain|
    ensures forall k: nat :: AfterRounds(r, a, server, disk, k).view.chain == a.view.chain
  {
    hide Validate, IsBetterTip, NodeOk, Label, LabelRules, WellFormed, Number, AfterRounds, BestChain, Linked,
         Compatible;
    r := LabelRules(8, 1);
    a := RowPeer(r, 8, 1, 2, 32, 1);
    server := RowPeer(r, 8, 2, 3, 32, 1);
    RowsApart(r, a.view.tree, 1, 2, server.view.tree, 2, 3);
    assert ForkPoint(a.view.chain, server.view.chain) == 0;
    PeakBelowWrap(r, 0, 1);
    SmallMod(1, Period(r));
    SmallMod(2, Period(r));
    CompatibleOrCollision(r, a, server);
    forall k: nat
      ensures AfterRounds(r, a, server, disk, k).view.chain == a.view.chain
    {
      Stalled(r, a, server, disk, k);
    }
  }

  /**
   * A server with 511 blocks at difficulty 120, and a node without blocks, both with the default limits: however often it
   * syncs, the node never gets the whole chain, because scores wrap on the way.
   */
  lemma StoppedAtWrapExists(disk: Disk) returns (r: Rules, a: Peer, server: Peer)
    ensures Comparable(r, a, server) && !TreesCollide(r, a.view.tree, server.view.tree)
    ensures WellFormed(r, a.view.tree)
    ensures a.maxLocator == server.maxLocator == 32 && a.maxBlocks == server.maxBlocks == 128
    ensures a.view.chain == [] && |server.view.chain| == 511
    ensures forall k: nat :: AfterRounds(r, a, server, disk, k).view.chain != server.view.chain
  {
    hide Validate, IsBetterTip, NodeOk, Label, LabelRules, WellFormed, Number, Period, PathTo, AfterRounds, TreesCollide;
    r := LabelRules(120, 1);
    RulesDifficulty(120, 1);
    HighDifficultyPeriod(r);
    var t := GrowRow(r, 120, 1, 511);
    RowBest(r, t, 1, 511, 511);
    RowIsZeroFree(r, t, 1, 511);
    BestChainFacts(r, t);
    EmptyView(r, t);
    a, server := Peer(ViewOf(EMPTY), 32, 128), Peer(ViewOf(t), 32, 128);
    FollowerReachesTipExactly(r, a, server, disk, 0);
  }

  lemma EmptyView(r: Rules, u: Tree)
    ensures WellFormed(r, EMPTY) && Linked(EMPTY) && BestChain(EMPTY) == [] && ZeroFree(EMPTY)
    ensures !TreesCollide(r, EMPTY, u)
  {
    EmptyIsWellFormed(r);
  }

  lemma RowsApart(r: Rules, t: Tree, seed: byte, n: nat, u: Tree, other: byte, m: nat)
    requires IsRow(r, t, seed, n) && IsRow(r, u, other, m) && seed != other && n <= 1000 && m <= 1000
    ensures !TreesCollide(r, t, u)
  {
    hide WellFormed, Label;
    forall h | h in t.nodes && h in u.nodes
      ensures false
    {
      LabelsDiffer(seed, t.nodes[h].nextHeight, other, u.nodes[h].nextHeight);
    }
  }

  // ---------------------------------------------------------------- the zero digest

  lemma FirstBlock(r: Rules, b: Block)
    requires Validate(r, GENESIS, b).Pass? && b.header.previousBlock == ZERO
    ensures WellFormed(r, Insert(r, EMPTY, b).0)
    ensures Insert(r, EMPTY, b).0.bestTip == Some(BlockHash(r, b))
    ensures Insert(r, EMPTY, b).0.nodes.Keys == {BlockHash(r, b)}
    ensures BestHeight(Insert(r, EMPTY, b).0) == b.header.height + 1
  {
    hide Validate, IsBetterTip, WellFormed;
    EmptyIsWellFormed(r);
    InsertKeepsWellFormed(r, EMPTY, b);
  }

  /** A tree whose best tip is the zero digest, on which the first `expect` of `mine_once` fires. */
  lemma ZeroTipExists() returns (r: Rules, t: Tree)
    ensures WellFormed(r, t) && SamplerSound(r) && t.bestTip == Some(ZERO) && BestHeight(t) == 1
    ensures Mined(r, BestContext(t), 0, 0, 0).Some?
    ensures Insert(r, t, Mined(r, BestContext(t), 0, 0, 0).value).1.Err?
  {
    hide Validate, IsBetterTip, NodeOk, Label, LabelRules, HonestTrace, WellFormed, SamplerSound, Insert, Mined, EMPTY;
    r := LabelRules(8, 0);
    LabelSampler(8, 0);
    FirstNonceWorks(r, 8, 0, GENESIS, 0);
    var b := Candidate(r, GENESIS, 0, 0, 0);
    LabelsDiffer(0, 0, 0, 1);
    FirstBlock(r, b);
    t := Insert(r, EMPTY, b).0;
    FirstNonceWorks(r, 8, 0, BestContext(t), 0);
    MinedInsertFailsExactly(r, t, 0, 0);
  }
}

/**
 * The node's state machine (crates/chesscoin-node/src/runtime.rs) on values: a block tree, the linear view of its best
 * branch kept beside it, the block log and the counters. The steps are mining, gossip, a sync batch and a restart.
 */
module Node {
  import opened Prelude
  import opened Domain
  import opened Validation
  import opened Training
  import opened Binding
  import opened ForkTree
  import opened Chain
  import opened ForkOrder
  import opened TipOrder

  datatype NodeView = NodeView(
    chain: seq<Block>,
    tree: Tree,
    storage: bool,
    log: seq<Block>,
    accepted: nat,
    rejected: nat,
    synced: nat,
    mined: nat,
    reorgs: nat,
    storageFailures: nat)

  datatype BlockSource = Gossip | Sync

  datatype BlockApplication = Accepted | AlreadyKnown | Rejected

  /** Whether appending the block with this hash to the log succeeds: the file system is outside the model. */
  type Disk = Digest -> bool

  /** The active chain is the tree's best branch. */
  ghost predicate ViewIsBestBranch(r: Rules, v: NodeView) {
    && WellFormed(r, v.tree)
    && Linked(v.tree)
    && v.chain == BestChain(v.tree)
  }

  /** No known block hashes to the digest that stands for "no parent". */
  predicate ZeroFree(t: Tree) {
    ZERO !in t.nodes
  }

  // ---------------------------------------------------------------- steps

  /** `activate_best_chain`: rebuild the active chain unless its head already is the best tip. */
  ghost function Activated(r: Rules, v: NodeView): NodeView
    requires Linked(v.tree)
  {
    if HeadHash(r, v.chain) == BestHash(v.tree) then v else v.(chain := BestChain(v.tree))
  }

  /** `persist_block`. */
  function Persisted(v: NodeView, b: Block, appended: bool): NodeView {
    if !v.storage then v
    else if appended then v.(log := v.log + [b])
    else v.(storageFailures := v.storageFailures + 1)
  }

  /** What `apply_incoming_block` counts after activation: a reorg, perhaps, and the block for its source. */
  function CountedBlock(r: Rules, w: NodeView, b: Block, oldHead: Digest, source: BlockSource): NodeView {
    var reorg := oldHead != ZERO && b.header.previousBlock != oldHead && HeadHash(r, w.chain) == BlockHash(r, b);
    var counted := w.(reorgs := w.reorgs + if reorg then 1 else 0);
    if source == Gossip then counted.(accepted := counted.accepted + 1) else counted.(synced := counted.synced + 1)
  }

  /** What `apply_incoming_block` does once the tree has taken the block in. */
  ghost function AfterAcceptance(r: Rules, v: NodeView, b: Block, tree: Tree, source: BlockSource, disk: Disk): NodeView
    requires Linked(tree)
  {
    var w := Activated(r, Persisted(v.(tree := tree), b, disk(BlockHash(r, b))));
    CountedBlock(r, w, b, HeadHash(r, v.chain), source)
  }

  /** `apply_incoming_block`. */
  ghost function Applied(r: Rules, v: NodeView, b: Block, source: BlockSource, disk: Disk): (NodeView, BlockApplication)
    requires WellFormed(r, v.tree)
  {
    if BlockHash(r, b) in v.tree.nodes then (v, AlreadyKnown)
    else
      var (tree, result) := Insert(r, v.tree, b);
      if result.Err? then (if source == Gossip then v.(rejected := v.rejected + 1) else v, Rejected)
      else
        InsertKeepsWellFormed(r, v.tree, b);
        WellFormedIsLinked(r, tree);
        (AfterAcceptance(r, v, b, tree, source, disk), Accepted)
  }

  lemma AppliedCases(r: Rules, v: NodeView, b: Block, source: BlockSource, disk: Disk)
    requires WellFormed(r, v.tree)
    ensures Linked(Insert(r, v.tree, b).0)
    ensures BlockHash(r, b) in v.tree.nodes ==> Applied(r, v, b, source, disk) == (v, AlreadyKnown)
    ensures BlockHash(r, b) !in v.tree.nodes && Insert(r, v.tree, b).1.Err? ==>
              Applied(r, v, b, source, disk)
              == (if source == Gossip then v.(rejected := v.rejected + 1) else v, Rejected)
    ensures BlockHash(r, b) !in v.tree.nodes && Insert(r, v.tree, b).1.Ok? ==>
              Applied(r, v, b, source, disk)
              == (AfterAcceptance(r, v, b, Insert(r, v.tree, b).0, source, disk), Accepted)
  {
    hide Validate, Insert, AfterAcceptance;
    InsertKeepsWellFormed(r, v.tree, b);
    WellFormedIsLinked(r, Insert(r, v.tree, b).0);
  }

  /** The context in which the node mines. */
  function BestContext(t: Tree): ParentContext {
    ParentContext(BestHeight(t), BestHash(t), BestModel(t))
  }

  /** `mine_once`, once a nonce has been found for `b`. */
  ghost function AfterMining(r: Rules, v: NodeView, b: Block, disk: Disk): NodeView
    requires WellFormed(r, v.tree)
  {
    InsertKeepsWellFormed(r, v.tree, b);
    WellFormedIsLinked(r, Insert(r, v.tree, b).0);
    var w := Persisted(Activated(r, v.(tree := Insert(r, v.tree, b).0)), b, disk(BlockHash(r, b)));
    w.(mined := w.mined + 1)
  }

  /** Apply the blocks of a sync batch one after another. */
  ghost function Committed(r: Rules, v: NodeView, blocks: seq<Block>, disk: Disk): NodeView
    requires WellFormed(r, v.tree)
    decreases |blocks|
  {
    if blocks == [] then v
    else
      AppliedTree(r, v, blocks[0], Sync, disk);
      Committed(r, Applied(r, v, blocks[0], Sync, disk).0, blocks[1..], disk)
  }

  /** The end of `blocks_from_peer`: try the batch on a copy of the tree, then apply it; `false` is the source's `Err`. */
  ghost function SyncBatch(r: Rules, v: NodeView, blocks: seq<Block>, disk: Disk): (NodeView, bool)
    requires WellFormed(r, v.tree)
  {
    if AllAccepted(r, v.tree, blocks) then (Committed(r, v, blocks, disk), true) else (v, false)
  }

  /** What a freshly started node makes of a log, if the log replays. */
  ghost function Restarted(r: Rules, v: NodeView): NodeView {
    InsertAllKeepsWellFormed(r, EMPTY, v.log);
    var tree := InsertAll(r, EMPTY, v.log);
    WellFormedIsLinked(r, tree);
    NodeView(BestChain(tree), tree, v.storage, v.log, 0, 0, 0, 0, 0, 0)
  }

  // ---------------------------------------------------------------- what one block does

  lemma AppliedTree(r: Rules, v: NodeView, b: Block, source: BlockSource, disk: Disk)
    requires WellFormed(r, v.tree)
    ensures Applied(r, v, b, source, disk).0.tree == Insert(r, v.tree, b).0
    ensures WellFormed(r, Applied(r, v, b, source, disk).0.tree)
    ensures Grows(v.tree, Applied(r, v, b, source, disk).0.tree)
    ensures Applied(r, v, b, source, disk).1 == Rejected <==> Insert(r, v.tree, b).1.Err?
    ensures Applied(r, v, b, source, disk).1 == AlreadyKnown <==> BlockHash(r, b) in v.tree.nodes
  {
    hide Validate, WellFormed;
    InsertKeepsWellFormed(r, v.tree, b);
    InsertGrows(r, v.tree, b);
  }

  /** The best chain after one insertion: unchanged, or the path to the new block. */
  lemma BestChainAfterInsert(r: Rules, t: Tree, b: Block)
    requires WellFormed(r, t) && Linked(t) && Linked(Insert(r, t, b).0)
    ensures Insert(r, t, b).0.bestTip == t.bestTip ==> BestChain(Insert(r, t, b).0) == BestChain(t)
    ensures Insert(r, t, b).0.bestTip != t.bestTip ==>
              && Insert(r, t, b).0.bestTip == Some(BlockHash(r, b))
              && BlockHash(r, b) !in t.nodes
              && (b.header.previousBlock != ZERO ==> b.header.previousBlock in t.nodes)
              && BestChain(Insert(r, t, b).0)
                 == (if b.header.previousBlock == ZERO then [] else PathTo(t, b.header.previousBlock)) + [b]
  {
    hide Validate, IsBetterTip;
    var u := Insert(r, t, b).0;
    InsertGrows(r, t, b);
    if u.bestTip == t.bestTip {
      if t.bestTip.Some? {
        PathStable(t, u, t.bestTip.value);
      }
    } else if b.header.previousBlock != ZERO {
      PathStable(t, u, b.header.previousBlock);
    }
  }

  /** The shortcut in `activate_best_chain` is sound: after an insertion the view is the best branch again. */
  lemma ActivationAfterInsert(r: Rules, v: NodeView, b: Block)
    requires ViewIsBestBranch(r, v)
    requires WellFormed(r, Insert(r, v.tree, b).0) && Linked(Insert(r, v.tree, b).0)
    requires ZeroFree(Insert(r, v.tree, b).0)
    ensures Activated(r, v.(tree := Insert(r, v.tree, b).0)).chain == BestChain(Insert(r, v.tree, b).0)
  {
    hide Validate, IsBetterTip, Insert;
    BestChainFacts(r, v.tree);
    BestChainAfterInsert(r, v.tree, b);
  }

  /** Applying a block keeps the view on the best branch. */
  lemma AppliedKeepsView(r: Rules, v: NodeView, b: Block, source: BlockSource, disk: Disk)
    requires ViewIsBestBranch(r, v)
    requires ZeroFree(Insert(r, v.tree, b).0)
    ensures ViewIsBestBranch(r, Applied(r, v, b, source, disk).0)
  {
    hide Validate, IsBetterTip, WellFormed;
    AppliedTree(r, v, b, source, disk);
    WellFormedIsLinked(r, Insert(r, v.tree, b).0);
    if Applied(r, v, b, source, disk).1 == Accepted {
      ActivationAfterInsert(r, v, b);
    }
  }

  /**
   * While the block after the best tip does not wrap, or scores fit, no known block lies on a longer path through the
   * best tip.
   */
  lemma BestChainIsNotAProperPrefix(r: Rules, t: Tree, h: Digest)
    requires WellFormed(r, t) && Linked(t)
    requires (BestHeight(t) + 1) % Period(r) != 0 || ScoresFit(r, t)
    requires t.bestTip.Some? && h in t.nodes && h != t.bestTip.value
    ensures !(BestChain(t) <= PathTo(t, h))
  {
    hide Validate, IsBetterTip, NodeOk, WellFormed, Period, RanksAbove, ValidChain, ScoresFit;
    var best := t.bestTip.value;
    BestIsUnbeaten(r, t, h);
    PathIsValidChain(r, t, best);
    PathIsValidChain(r, t, h);
    if BestChain(t) <= PathTo(t, h) {
      var k := |BestChain(t)|;
      assert PathTo(t, h)[k - 1] == BestChain(t)[k - 1];
      assert k < |PathTo(t, h)|;
      if ScoresFit(r, t) {
        HigherIsBetter(r, t, h, best);
      } else {
        PathBlock(r, t, h, k + 1);
        var g := BlockHash(r, PathTo(t, h)[k]);
        BestIsUnbeaten(r, t, g);
        RankDecides(r, t, g, best);
        NextRanksAbove(r, k, g, best);
        assert false;
      }
    }
  }

  lemma NextRanksAbove(r: Rules, n: nat, g: Digest, h: Digest)
    requires (n + 1) % Period(r) != 0
    ensures RanksAbove(r, n + 1, g, n, h)
  {
    hide Period;
    ModNext(n, Period(r));
  }

  /** What the code compares when it counts a reorg. */
  lemma ReorgTest(r: Rules, v: NodeView, b: Block, source: BlockSource, disk: Disk)
    requires WellFormed(r, v.tree)
    ensures Applied(r, v, b, source, disk).1 != Accepted ==> Applied(r, v, b, source, disk).0.chain == v.chain
    ensures Applied(r, v, b, source, disk).0.reorgs ==
              v.reorgs + if && Applied(r, v, b, source, disk).1 == Accepted
                            && HeadHash(r, v.chain) != ZERO
                            && b.header.previousBlock != HeadHash(r, v.chain)
                            && HeadHash(r, Applied(r, v, b, source, disk).0.chain) == BlockHash(r, b) then 1 else 0
  {
    hide Validate, WellFormed, Insert;
  }

  /** The old, non-empty active chain is no longer a prefix of the active chain. */
  ghost predicate LeavesBranch(old': seq<Block>, new': seq<Block>) {
    old' != [] && !(old' <= new')
  }

  /** The active chain stays on its branch and grows by more than one block at once. */
  ghost predicate SkipsAhead(old': seq<Block>, new': seq<Block>) {
    old' != [] && old' <= new' && |new'| > |old'| + 1
  }

  /**
   * What the reorg counter counts, in every well-formed state: the steps after which the old active chain is no longer a
   * prefix of the active chain, and those in which it grows by more than one block at once. The code only compares the
   * new block's parent with the old head.
   */
  lemma ReorgCountIsExact(r: Rules, v: NodeView, b: Block, source: BlockSource, disk: Disk)
    requires ViewIsBestBranch(r, v)
    requires ZeroFree(Insert(r, v.tree, b).0)
    ensures var w := Applied(r, v, b, source, disk).0;
            w.reorgs == v.reorgs + if LeavesBranch(v.chain, w.chain) || SkipsAhead(v.chain, w.chain) then 1 else 0
  {
    hide Validate, IsBetterTip, WellFormed, Insert, Applied, BestChain, HeadHash, ZeroFree;
    var w := Applied(r, v, b, source, disk).0;
    ZeroFreeBefore(r, v.tree, b);
    ReorgTest(r, v, b, source, disk);
    AppliedTree(r, v, b, source, disk);
    AppliedKeepsView(r, v, b, source, disk);
    HeadIsBestTip(r, v);
    HeadIsBestTip(r, w);
    BestChainAfterInsert(r, v.tree, b);
    if w.tree.bestTip == v.tree.bestTip {
      assert w.chain == v.chain;
    } else if v.chain != [] {
      NewTipReorgs(r, v, b, w.chain);
    }
  }

  /**
   * The active chain skips ahead only where scores wrap: never while scores fit, and never from a height whose next block
   * does not wrap. There the reorg counter counts exactly the steps that leave a branch.
   */
  lemma NoSkipBeforeWrap(r: Rules, v: NodeView, b: Block, source: BlockSource, disk: Disk)
    requires ViewIsBestBranch(r, v)
    requires (|v.chain| + 1) % Period(r) != 0 || ScoresFit(r, v.tree)
    requires ZeroFree(Insert(r, v.tree, b).0)
    ensures !SkipsAhead(v.chain, Applied(r, v, b, source, disk).0.chain)
  {
    hide Validate, IsBetterTip, WellFormed, ScoresFit, Insert, Applied, BestChain, HeadHash, ZeroFree, Period;
    var w := Applied(r, v, b, source, disk).0;
    ZeroFreeBefore(r, v.tree, b);
    ReorgTest(r, v, b, source, disk);
    AppliedTree(r, v, b, source, disk);
    AppliedKeepsView(r, v, b, source, disk);
    HeadIsBestTip(r, v);
    BestChainFacts(r, v.tree);
    BestChainAfterInsert(r, v.tree, b);
    if w.tree.bestTip == v.tree.bestTip {
      assert w.chain == v.chain;
    } else if v.chain != [] && SkipsAhead(v.chain, w.chain) {
      var previous := b.header.previousBlock;
      assert v.chain <= w.chain[..|w.chain| - 1];
      assert previous != ZERO && w.chain[..|w.chain| - 1] == PathTo(v.tree, previous);
      PathOfBest(v.tree, previous);
      BestChainIsNotAProperPrefix(r, v.tree, previous);
    }
  }

  lemma PathOfBest(t: Tree, h: Digest)
    requires Linked(t) && h in t.nodes
    ensures t.bestTip == Some(h) ==> PathTo(t, h) == BestChain(t)
  {
  }

  /** Where the active chain skips ahead: what can be seen before the block is inserted. */
  ghost predicate WillSkip(r: Rules, v: NodeView, b: Block)
    requires Linked(v.tree)
  {
    var previous := b.header.previousBlock;
    && v.chain != [] && BlockHash(r, b) !in v.tree.nodes && Insert(r, v.tree, b).1.Ok?
    && previous in v.tree.nodes && previous != HeadHash(r, v.chain)
    && v.chain <= PathTo(v.tree, previous)
    && (|v.chain| + 1) % Period(r) == 0
    && (b.header.height + 2) % Period(r) == 0
  }

  /** The new tip of an insertion that skips ahead, and its height. */
  lemma SkippingTip(r: Rules, v: NodeView, b: Block)
    requires ViewIsBestBranch(r, v) && ZeroFree(v.tree)
    requires v.chain != [] && BlockHash(r, b) !in v.tree.nodes && Insert(r, v.tree, b).1.Ok?
    requires (|v.chain| + 1) % Period(r) == 0 && |v.chain| < b.header.height
    ensures Insert(r, v.tree, b).0.bestTip == Some(BlockHash(r, b)) <==> (b.header.height + 2) % Period(r) == 0
    ensures Insert(r, v.tree, b).0.bestTip == Some(BlockHash(r, b)) || Insert(r, v.tree, b).0.bestTip == v.tree.bestTip
  {
    hide Validate, IsBetterTip, WellFormed, Insert, Period, ZeroFree;
    HeadIsBestTip(r, v);
    BestChainFacts(r, v.tree);
    TipAfterInsert(r, v.tree, b);
    ModNext(|v.chain|, Period(r));
    ModNext(b.header.height + 1, Period(r));
  }

  /** A path that goes on beyond the best tip is longer than the best chain. */
  lemma LongerPath(r: Rules, v: NodeView, h: Digest)
    requires ViewIsBestBranch(r, v) && h in v.tree.nodes && v.chain <= PathTo(v.tree, h)
    ensures |PathTo(v.tree, h)| == v.tree.nodes[h].nextHeight
    ensures v.chain != [] && h != HeadHash(r, v.chain) ==> |v.chain| < v.tree.nodes[h].nextHeight
    ensures h == HeadHash(r, v.chain) && v.tree.bestTip == Some(h) ==> v.chain == PathTo(v.tree, h)
  {
    hide Validate, IsBetterTip, NodeOk, ValidChain;
    PathIsValidChain(r, v.tree, h);
    if |v.chain| == |PathTo(v.tree, h)| {
      assert v.chain == PathTo(v.tree, h);
    }
  }

  lemma HeightOnParent(r: Rules, t: Tree, b: Block)
    requires WellFormed(r, t) && BlockHash(r, b) !in t.nodes && Insert(r, t, b).1.Ok?
    requires b.header.previousBlock in t.nodes && b.header.previousBlock != ZERO
    ensures b.header.height == t.nodes[b.header.previousBlock].nextHeight
  {
    hide IsBetterTip, NodeOk;
  }

  /**
   * The active chain skips ahead, and `reorgs` counts a step that leaves no branch, if and only if a block is accepted
   * whose parent is above the best tip on the best tip's own branch, with both the best tip and the new block last before
   * a wrap of the scores.
   */
  lemma SkipsAheadExactly(r: Rules, v: NodeView, b: Block, source: BlockSource, disk: Disk)
    requires ViewIsBestBranch(r, v)
    requires ZeroFree(Insert(r, v.tree, b).0)
    ensures SkipsAhead(v.chain, Applied(r, v, b, source, disk).0.chain) <==> WillSkip(r, v, b)
  {
    hide Validate, IsBetterTip, WellFormed, Insert, Applied, BestChain, HeadHash, ZeroFree, Period, PathTo;
    var w, previous := Applied(r, v, b, source, disk).0, b.header.previousBlock;
    ZeroFreeBefore(r, v.tree, b);
    ReorgTest(r, v, b, source, disk);
    AppliedTree(r, v, b, source, disk);
    AppliedKeepsView(r, v, b, source, disk);
    HeadIsBestTip(r, v);
    BestChainAfterInsert(r, v.tree, b);
    if (|v.chain| + 1) % Period(r) != 0 {
      NoSkipBeforeWrap(r, v, b, source, disk);
    } else if SkipsAhead(v.chain, w.chain) {
      assert w.chain != v.chain;
      assert w.chain[..|w.chain| - 1] == if previous == ZERO then [] else PathTo(v.tree, previous);
      assert v.chain <= w.chain[..|w.chain| - 1];
      LongerPath(r, v, previous);
      HeightOnParent(r, v.tree, b);
      SkippingTip(r, v, b);
    }
    if WillSkip(r, v, b) {
      ZeroIsUnknown(v.tree, previous);
      LongerPath(r, v, previous);
      HeightOnParent(r, v.tree, b);
      SkippingTip(r, v, b);
    }
  }

  lemma ZeroIsUnknown(t: Tree, h: Digest)
    requires ZeroFree(t)
    ensures h in t.nodes ==> h != ZERO
  {
  }

  lemma ZeroFreeBefore(r: Rules, t: Tree, b: Block)
    requires ZeroFree(Insert(r, t, b).0)
    ensures ZeroFree(t)
  {
    hide Validate;
    InsertGrows(r, t, b);
  }

  lemma HeadIsBestTip(r: Rules, v: NodeView)
    requires ViewIsBestBranch(r, v) && ZeroFree(v.tree)
    ensures v.chain == [] <==> v.tree.bestTip == None
    ensures v.chain == [] <==> HeadHash(r, v.chain) == ZERO
    ensures v.tree.bestTip.Some? ==>
              HeadHash(r, v.chain) == v.tree.bestTip.value && v.tree.bestTip.value in v.tree.nodes
  {
    BestChainFacts(r, v.tree);
  }

  lemma NewTipReorgs(r: Rules, v: NodeView, b: Block, chain: seq<Block>)
    requires ViewIsBestBranch(r, v) && v.tree.bestTip.Some?
    requires BlockHash(r, b) !in v.tree.nodes
    requires b.header.previousBlock != ZERO ==> b.header.previousBlock in v.tree.nodes
    requires chain == (if b.header.previousBlock == ZERO then [] else PathTo(v.tree, b.header.previousBlock)) + [b]
    requires v.tree.bestTip.value != ZERO
    ensures b.header.previousBlock == v.tree.bestTip.value <==> v.chain <= chain && |chain| <= |v.chain| + 1
  {
    hide Validate, IsBetterTip, NodeOk, ValidChain;
    var best, previous := v.tree.bestTip.value, b.header.previousBlock;
    PathIsValidChain(r, v.tree, best);
    assert BlockHash(r, v.chain[|v.chain| - 1]) == best && chain[|chain| - 1] == b;
    assert v.chain != chain;
    if v.chain <= chain && |chain| <= |v.chain| + 1 {
      assert v.chain == chain[..|chain| - 1];
      assert previous != ZERO;
      PathIsValidChain(r, v.tree, previous);
    }
  }

  /** The active chain never gets shorter, not even when scores wrap. */
  lemma HeightNeverDecreases(r: Rules, v: NodeView, b: Block, source: BlockSource, disk: Disk)
    requires ViewIsBestBranch(r, v)
    requires ZeroFree(Insert(r, v.tree, b).0)
    ensures |Applied(r, v, b, source, disk).0.chain| >= |v.chain|
  {
    hide Validate, IsBetterTip, Insert;
    AppliedTree(r, v, b, source, disk);
    AppliedKeepsView(r, v, b, source, disk);
    InsertOnlyRaises(r, v.tree, b);
    BestChainFacts(r, v.tree);
    BestChainFacts(r, Insert(r, v.tree, b).0);
  }

  // ---------------------------------------------------------------- mining

  /**
   * The first `expect` of `mine_once`: inserting the mined block fails exactly when the best tip's hash is the zero
   * digest, which the tree reads as "no parent" (and the mined block is not already known).
   */
  lemma MinedInsertFailsExactly(r: Rules, t: Tree, seed: u64, entropy: u64)
    requires WellFormed(r, t) && SamplerSound(r)
    requires BestHeight(t) < TWO64
    requires Mined(r, BestContext(t), seed, entropy, 0).Some?
    ensures var b := Mined(r, BestContext(t), seed, entropy, 0).value;
            Insert(r, t, b).1.Err? <==> t.bestTip == Some(ZERO) && BlockHash(r, b) !in t.nodes
  {
    hide IsBetterTip;
    var b := Mined(r, BestContext(t), seed, entropy, 0).value;
    MinedIsCandidate(r, BestContext(t), seed, entropy, 0);
    if t.bestTip.Some? {
      assert NodeOk(r, t, t.bestTip.value);
      assert b.header.height == BestHeight(t) != 0;
    }
    if t.bestTip != Some(ZERO) {
      assert ContextFor(t, b) == Some(BestContext(t));
      MinedBlockIsValid(r, BestContext(t), seed, entropy);
    } else {
      assert ContextFor(t, b) == Some(GENESIS);
      assert Validate(r, GENESIS, b).Fail?;
    }
  }

  /** Where the next score does not wrap, a block one above the best tip is new, unless it collides with a known block. */
  lemma BlockAboveBestIsNew(r: Rules, t: Tree, b: Block)
    requires WellFormed(r, t) && (BestHeight(t) + 1) % Period(r) != 0
    requires b.header.height == BestHeight(t)
    requires BlockHash(r, b) in t.nodes ==> !Collide(r, b, t.nodes[BlockHash(r, b)].block)
    ensures BlockHash(r, b) !in t.nodes
  {
    hide Validate, IsBetterTip, Collide, Period, RanksAbove;
    var h := BlockHash(r, b);
    if h in t.nodes {
      assert NodeOk(r, t, h);
      HashBindsHeader(r, b, t.nodes[h].block);
      RankDecides(r, t, h, t.bestTip.value);
      NextRanksAbove(r, BestHeight(t), h, t.bestTip.value);
      assert false;
    }
  }

  /** A new block on the best tip becomes the best tip exactly if its height is no multiple of the period. */
  lemma NextBlockTip(r: Rules, t: Tree, b: Block)
    requires WellFormed(r, t) && ZeroFree(t)
    requires BlockHash(r, b) !in t.nodes && Insert(r, t, b).1.Ok?
    requires b.header.height == BestHeight(t) && b.header.previousBlock == BestHash(t)
    ensures Insert(r, t, b).0.bestTip ==
              if (BestHeight(t) + 1) % Period(r) != 0 then Some(BlockHash(r, b)) else t.bestTip
  {
    hide Validate, IsBetterTip, Period;
    ModNext(BestHeight(t), Period(r));
    if t.bestTip.Some? {
      TipAfterInsert(r, t, b);
    } else {
      SmallMod(1, Period(r));
    }
  }

  /**
   * Mining in every zero-free state: the mined block validates and neither `expect` can fire. It is new, becomes the best
   * tip and extends the active chain by exactly itself if and only if the new height is no multiple of the period of
   * scores; at a multiple its score wraps to zero and the active chain stays as it was.
   */
  lemma MiningExtendsChain(r: Rules, v: NodeView, seed: u64, entropy: u64, disk: Disk)
    requires ViewIsBestBranch(r, v) && ZeroFree(v.tree) && SamplerSound(r)
    requires BestHeight(v.tree) < TWO64
    requires Mined(r, BestContext(v.tree), seed, entropy, 0).Some?
    requires var b := Mined(r, BestContext(v.tree), seed, entropy, 0).value;
             && BlockHash(r, b) != ZERO
             && (BlockHash(r, b) in v.tree.nodes ==> !Collide(r, b, v.tree.nodes[BlockHash(r, b)].block))
    ensures var b, w := Mined(r, BestContext(v.tree), seed, entropy, 0).value,
                        AfterMining(r, v, Mined(r, BestContext(v.tree), seed, entropy, 0).value, disk);
            && Insert(r, v.tree, b).1.Ok?
            && ViewIsBestBranch(r, w)
            && ((|v.chain| + 1) % Period(r) != 0 ==>
                  BlockHash(r, b) !in v.tree.nodes && w.tree.bestTip == Some(BlockHash(r, b)) && w.chain == v.chain + [b])
            && ((|v.chain| + 1) % Period(r) == 0 ==> w.tree.bestTip == v.tree.bestTip && w.chain == v.chain)
  {
    hide Validate, IsBetterTip, WellFormed, Insert, Collide, Mined, SamplerSound, Period;
    var t := v.tree;
    var b := Mined(r, BestContext(t), seed, entropy, 0).value;
    MinedIsCandidate(r, BestContext(t), seed, entropy, 0);
    MinedInsertFailsExactly(r, t, seed, entropy);
    BestChainFacts(r, t);
    InsertKeepsWellFormed(r, t, b);
    InsertGrows(r, t, b);
    WellFormedIsLinked(r, Insert(r, t, b).0);
    HeadIsBestTip(r, v);
    if (|v.chain| + 1) % Period(r) != 0 {
      BlockAboveBestIsNew(r, t, b);
    }
    if BlockHash(r, b) !in t.nodes {
      NextBlockTip(r, t, b);
    }
    BestChainAfterInsert(r, t, b);
    ActivationAfterInsert(r, v, b);
  }

  // ---------------------------------------------------------------- sync batches

  /** A batch that passed the dry run is applied completely: nothing is refused and every block is known afterwards. */
  lemma {:induction false} CommittedBatch(r: Rules, v: NodeView, blocks: seq<Block>, disk: Disk)
    requires WellFormed(r, v.tree)
    requires AllAccepted(r, v.tree, blocks)
    ensures Committed(r, v, blocks, disk).tree == InsertAll(r, v.tree, blocks)
    ensures WellFormed(r, InsertAll(r, v.tree, blocks))
    ensures Grows(v.tree, InsertAll(r, v.tree, blocks))
    ensures forall i :: 0 <= i < |blocks| ==> BlockHash(r, blocks[i]) in InsertAll(r, v.tree, blocks).nodes
    ensures Committed(r, v, blocks, disk).synced - v.synced == |InsertAll(r, v.tree, blocks).nodes| - |v.tree.nodes|
    decreases |blocks|
  {
    hide Validate, IsBetterTip, WellFormed, Insert;
    if blocks != [] {
      var w := Applied(r, v, blocks[0], Sync, disk).0;
      AppliedTree(r, v, blocks[0], Sync, disk);
      AppliedCounts(r, v, blocks[0], Sync, disk);
      CommittedBatch(r, w, blocks[1..], disk);
      InsertGrows(r, v.tree, blocks[0]);
    }
  }

  lemma InsertSize(r: Rules, t: Tree, b: Block)
    ensures |Insert(r, t, b).0.nodes| ==
              |t.nodes| + if Insert(r, t, b).1.Ok? && BlockHash(r, b) !in t.nodes then 1 else 0
  {
    hide Validate, IsBetterTip;
  }

  /** The accepted and synced counters count exactly the blocks that were new. */
  lemma AppliedCounts(r: Rules, v: NodeView, b: Block, source: BlockSource, disk: Disk)
    requires WellFormed(r, v.tree)
    ensures var w := Applied(r, v, b, source, disk).0;
            && w.accepted - v.accepted == (if source == Gossip then |w.tree.nodes| - |v.tree.nodes| else 0)
            && w.synced - v.synced == (if source == Sync then |w.tree.nodes| - |v.tree.nodes| else 0)
  {
    hide Validate, IsBetterTip, WellFormed, Insert, Applied;
    AppliedCases(r, v, b, source, disk);
    AppliedTree(r, v, b, source, disk);
    InsertGrows(r, v.tree, b);
    InsertSize(r, v.tree, b);
  }

  /** Only gossiped blocks that are refused count as rejected; nothing else that happens to a block does. */
  lemma RejectedCounts(r: Rules, v: NodeView, b: Block, source: BlockSource, disk: Disk)
    requires WellFormed(r, v.tree)
    ensures var w := Applied(r, v, b, source, disk).0;
            && w.rejected as int - v.rejected == (if source == Gossip && Insert(r, v.tree, b).1.Err? then 1 else 0)
            && w.mined == v.mined
            && (Insert(r, v.tree, b).1.Err? ==> w == v.(rejected := w.rejected))
            && (BlockHash(r, b) in v.tree.nodes ==> w == v)
  {
    hide Validate, IsBetterTip, WellFormed, Insert, Applied, Activated, Persisted;
    AppliedCases(r, v, b, source, disk);
    if BlockHash(r, b) in v.tree.nodes {
      KnownIsAccepted(r, v.tree, b);
    } else if Insert(r, v.tree, b).1.Ok? {
      PersistenceCounts(v.(tree := Insert(r, v.tree, b).0), b, disk(BlockHash(r, b)));
      ActivationChangesChainOnly(r, Persisted(v.(tree := Insert(r, v.tree, b).0), b, disk(BlockHash(r, b))));
    }
  }

  lemma KnownIsAccepted(r: Rules, t: Tree, b: Block)
    requires BlockHash(r, b) in t.nodes
    ensures Insert(r, t, b).1.Ok?
  {
    hide Validate;
  }

  lemma ActivationChangesChainOnly(r: Rules, v: NodeView)
    requires Linked(v.tree)
    ensures Activated(r, v) == v.(chain := Activated(r, v).chain)
  {
    hide Linked;
  }

  /** With storage every block that is persisted ends up in the log or is counted as a failure; without, neither. */
  lemma PersistenceCounts(v: NodeView, b: Block, appended: bool)
    ensures var w := Persisted(v, b, appended);
            && w == v.(log := w.log, storageFailures := w.storageFailures)
            && (w.log == v.log || w.log == v.log + [b])
            && |w.log| + w.storageFailures == |v.log| + v.storageFailures + (if v.storage then 1 else 0)
            && (v.storage ==> (w.log == v.log + [b] <==> appended))
  {
  }

  /** A sync batch is all or nothing. */
  lemma BatchIsAtomic(r: Rules, v: NodeView, blocks: seq<Block>, disk: Disk)
    requires WellFormed(r, v.tree)
    ensures !SyncBatch(r, v, blocks, disk).1 ==> SyncBatch(r, v, blocks, disk).0 == v
    ensures SyncBatch(r, v, blocks, disk).1 ==>
              forall i :: 0 <= i < |blocks| ==> BlockHash(r, blocks[i]) in SyncBatch(r, v, blocks, disk).0.tree.nodes
    ensures Grows(v.tree, SyncBatch(r, v, blocks, disk).0.tree)
  {
    if AllAccepted(r, v.tree, blocks) {
      CommittedBatch(r, v, blocks, disk);
    }
  }

  /** After the dry run has succeeded, no block of the batch can be refused: that branch of the source is dead. */
  lemma {:induction false} DryRunPredictsCommit(r: Rules, v: NodeView, blocks: seq<Block>, disk: Disk, i: nat)
    requires WellFormed(r, v.tree)
    requires AllAccepted(r, v.tree, blocks) && i < |blocks|
    ensures WellFormed(r, Committed(r, v, blocks[..i], disk).tree)
    ensures Applied(r, Committed(r, v, blocks[..i], disk), blocks[i], Sync, disk).1 != Rejected
    decreases |blocks|
  {
    hide Validate, IsBetterTip, WellFormed, Insert;
    AppliedTree(r, v, blocks[0], Sync, disk);
    if i > 0 {
      DryRunPredictsCommit(r, Applied(r, v, blocks[0], Sync, disk).0, blocks[1..], disk, i - 1);
      assert blocks[..i][1..] == blocks[1..][..i - 1];
    }
  }

  lemma {:induction false} CommittedKeepsView(r: Rules, v: NodeView, blocks: seq<Block>, disk: Disk)
    requires ViewIsBestBranch(r, v)
    requires AllAccepted(r, v.tree, blocks)
    requires ZeroFree(InsertAll(r, v.tree, blocks))
    ensures ViewIsBestBranch(r, Committed(r, v, blocks, disk))
    decreases |blocks|
  {
    hide Validate, IsBetterTip, WellFormed, Insert, Applied;
    if blocks != [] {
      var w := Applied(r, v, blocks[0], Sync, disk).0;
      AppliedTree(r, v, blocks[0], Sync, disk);
      InsertAllKeepsWellFormed(r, w.tree, blocks[1..]);
      AppliedKeepsView(r, v, blocks[0], Sync, disk);
      CommittedKeepsView(r, w, blocks[1..], disk);
    }
  }
}

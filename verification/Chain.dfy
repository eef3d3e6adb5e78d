/** A linear chain of validated blocks (`ChainState`) and the paths of the block tree. */
module Chain {
  import opened Prelude
  import opened Domain
  import opened Validation
  import opened Training
  import opened ForkTree

  // ---------------------------------------------------------------- chains

  function HeadHash(r: Rules, blocks: seq<Block>): Digest {
    if blocks == [] then ZERO else BlockHash(r, blocks[|blocks| - 1])
  }

  function CurrentModel(blocks: seq<Block>): ModelState {
    if blocks == [] then GENESIS_MODEL else blocks[|blocks| - 1].header.modelAfter
  }

  /** What a chain demands of its next block. */
  function ChainContext(r: Rules, blocks: seq<Block>): ParentContext {
    ParentContext(|blocks|, HeadHash(r, blocks), CurrentModel(blocks))
  }

  /** Every block was valid on the blocks before it. */
  ghost predicate ValidChain(r: Rules, blocks: seq<Block>) {
    forall i {:trigger ValidAt(r, blocks, i)} :: 0 <= i < |blocks| ==> ValidAt(r, blocks, i)
  }

  /** Block `i` is valid on the blocks before it. */
  ghost predicate ValidAt(r: Rules, blocks: seq<Block>, i: nat)
    requires i < |blocks|
  {
    Validate(r, ChainContext(r, blocks[..i]), blocks[i]).Pass?
  }

  lemma ValidChainAppend(r: Rules, blocks: seq<Block>, b: Block)
    requires ValidChain(r, blocks)
    ensures ValidChain(r, blocks + [b]) <==> Validate(r, ChainContext(r, blocks), b).Pass?
  {
    hide Validate;
    var all := blocks + [b];
    assert all[..|blocks|] == blocks;
    assert ValidAt(r, all, |blocks|) <==> Validate(r, ChainContext(r, blocks), b).Pass?;
    forall i: nat | i < |blocks|
      ensures ValidAt(r, all, i)
    {
      assert ValidAt(r, blocks, i);
      assert all[..i] == blocks[..i];
    }
  }

  lemma ValidChainPrefix(r: Rules, blocks: seq<Block>, n: nat)
    requires ValidChain(r, blocks) && n <= |blocks|
    ensures ValidChain(r, blocks[..n])
  {
    hide Validate;
    forall i: nat | i < n
      ensures ValidAt(r, blocks[..n], i)
    {
      assert ValidAt(r, blocks, i);
      assert blocks[..n][..i] == blocks[..i];
    }
  }

  /** In a valid chain heights count up from zero and each block names the one before it. */
  lemma ValidChainLinks(r: Rules, blocks: seq<Block>, i: nat)
    requires ValidChain(r, blocks) && i < |blocks|
    ensures blocks[i].header.height == i
    ensures blocks[i].header.previousBlock == if i == 0 then ZERO else BlockHash(r, blocks[i - 1])
    ensures HeaderFits(r, ChainContext(r, blocks[..i]), blocks[i].header)
  {
    assert ValidAt(r, blocks, i);
    ValidMeaning(r, ChainContext(r, blocks[..i]), blocks[i]);
  }

  /** `ChainState`: the active chain, grown one validated block at a time. */
  class ChainState {
    const rules: Rules
    var blocks: seq<Block>

    constructor (r: Rules)
      ensures rules == r && blocks == []
    {
      rules := r;
      blocks := [];
    }

    /** `validate_next_block`. */
    method ValidateNextBlock(b: Block) returns (outcome: Outcome)
      ensures outcome == Validate(rules, ChainContext(rules, blocks), b)
    {
      outcome := ValidateBlockAfter(rules, ChainContext(rules, blocks), b);
    }

    /** `apply_block`: a block that does not validate changes nothing. */
    method ApplyBlock(b: Block) returns (result: Result<Digest, BlockError>)
      modifies this
      ensures result.Ok? <==> Validate(rules, ChainContext(rules, old(blocks)), b).Pass?
      ensures result.Ok? ==> blocks == old(blocks) + [b] && result.value == HeadHash(rules, blocks)
      ensures result.Err? ==> blocks == old(blocks)
                              && Validate(rules, ChainContext(rules, blocks), b) == Fail(result.error)
      ensures ValidChain(rules, old(blocks)) ==> ValidChain(rules, blocks)
    {
      var outcome := ValidateNextBlock(b);
      if outcome.Fail? {
        return Err(outcome.error);
      }
      if ValidChain(rules, blocks) {
        ValidChainAppend(rules, blocks, b);
      }
      var hash := BlockHash(rules, b);
      blocks := blocks + [b];
      return Ok(hash);
    }

    /** `ChainState::mine_next_block`; `None` when no nonce meets the difficulty. */
    method MineNextBlock(seed: u64, entropy: u64) returns (mined: Option<Block>)
      requires |blocks| < TWO64
      ensures mined == Mined(rules, ChainContext(rules, blocks), seed, entropy, 0)
      ensures mined.Some? ==> IsMinedFor(rules, mined.value, ChainContext(rules, blocks), seed, entropy)
      ensures SamplerSound(rules) && ValidChain(rules, blocks) && mined.Some? ==>
                ValidChain(rules, blocks + [mined.value])
    {
      mined := MineAfter(rules, ChainContext(rules, blocks), seed, entropy);
      if SamplerSound(rules) && ValidChain(rules, blocks) && mined.Some? {
        MinedBlockIsValid(rules, ChainContext(rules, blocks), seed, entropy);
        ValidChainAppend(rules, blocks, mined.value);
      }
    }
  }

  /** `chain_from_blocks`: succeeds exactly on valid chains, and then holds those blocks. */
  method ChainFromBlocks(r: Rules, blocks: seq<Block>) returns (result: Result<ChainState, BlockError>)
    ensures result.Ok? <==> ValidChain(r, blocks)
    ensures result.Ok? ==> fresh(result.value) && result.value.rules == r && result.value.blocks == blocks
  {
    hide Validate;
    var chain := new ChainState(r);
    var i := 0;
    while i < |blocks|
      invariant 0 <= i <= |blocks|
      invariant fresh(chain) && chain.rules == r
      invariant chain.blocks == blocks[..i]
      invariant ValidChain(r, blocks[..i])
    {
      var applied := chain.ApplyBlock(blocks[i]);
      if applied.Err? {
        assert !ValidAt(r, blocks, i);
        return Err(applied.error);
      }
      assert blocks[..i] + [blocks[i]] == blocks[..i + 1];
      i := i + 1;
    }
    assert blocks[..|blocks|] == blocks;
    return Ok(chain);
  }

  // ---------------------------------------------------------------- training over a whole chain

  function Seeds(blocks: seq<Block>): seq<u64> {
    seq(|blocks|, i requires 0 <= i < |blocks| => blocks[i].header.trainingSeed)
  }

  /** Training from genesis with one seed after another, `steps` steps each. */
  function TrainedOn(r: Rules, seeds: seq<u64>): ModelState {
    if seeds == [] then GENESIS_MODEL
    else StateAfter(r, TrainedOn(r, seeds[..|seeds| - 1]), seeds[|seeds| - 1], r.config.stepsPerBlock)
  }

  lemma TrainedBlock(r: Rules, rest: seq<Block>, last: Block)
    requires SamplerSound(r) && r.config.samplesPerBlock >= r.config.stepsPerBlock
    requires Validate(r, ChainContext(r, rest), last).Pass?
    ensures last.header.modelAfter
            == StateAfter(r, CurrentModel(rest), last.header.trainingSeed, r.config.stepsPerBlock)
  {
    FullSamplingAdmitsOnlyHonestTraces(r, ChainContext(r, rest), last);
  }

  /** With full sampling the model at the tip of a valid chain is determined by the chain's seeds alone. */
  lemma {:induction false} TipModelIsTrained(r: Rules, blocks: seq<Block>)
    requires SamplerSound(r) && r.config.samplesPerBlock >= r.config.stepsPerBlock
    requires ValidChain(r, blocks)
    ensures CurrentModel(blocks) == TrainedOn(r, Seeds(blocks))
  {
    if blocks == [] {
    } else {
      var n := |blocks| - 1;
      ValidChainPrefix(r, blocks, n);
      TipModelIsTrained(r, blocks[..n]);
      assert Seeds(blocks)[..n] == Seeds(blocks[..n]);
      assert ValidAt(r, blocks, n);
      TrainedBlock(r, blocks[..n], blocks[n]);
    }
  }

  /** Training on a list of seeds moves no weight by more than two per step. */
  lemma {:induction false} TrainedDrift(r: Rules, seeds: seq<u64>)
    ensures Near(GENESIS_MODEL, TrainedOn(r, seeds), 2 * (r.config.stepsPerBlock * |seeds|))
  {
    if seeds == [] {
    } else {
      var n := |seeds| - 1;
      var steps: u64 := r.config.stepsPerBlock;
      TrainedDrift(r, seeds[..n]);
      TrainingDrift(r, TrainedOn(r, seeds[..n]), seeds[n], steps);
      NearAdds(GENESIS_MODEL, TrainedOn(r, seeds[..n]), TrainedOn(r, seeds), 2 * (steps * n), 2 * steps);
      assert steps * |seeds| == steps * n + steps;
    }
  }

  /** So every weight of an active chain's tip is within 2 * steps * height of its genesis value. */
  lemma TipModelDrift(r: Rules, blocks: seq<Block>)
    requires SamplerSound(r) && r.config.samplesPerBlock >= r.config.stepsPerBlock
    requires ValidChain(r, blocks)
    ensures Near(GENESIS_MODEL, CurrentModel(blocks), 2 * (r.config.stepsPerBlock * |blocks|))
  {
    TipModelIsTrained(r, blocks);
    TrainedDrift(r, Seeds(blocks));
  }

  // ---------------------------------------------------------------- paths in the tree

  /** Enough structure for walks towards the parent to end. */
  ghost predicate Linked(t: Tree) {
    forall h {:trigger ParentLower(t, h)} :: h in t.nodes ==> ParentLower(t, h)
  }

  /** The parent of a known block is known and lower. */
  predicate ParentLower(t: Tree, h: Digest)
    requires h in t.nodes
  {
    t.nodes[h].parent != ZERO ==>
      && t.nodes[h].parent in t.nodes
      && t.nodes[t.nodes[h].parent].nextHeight < t.nodes[h].nextHeight
  }

  lemma WellFormedIsLinked(r: Rules, t: Tree)
    requires WellFormed(r, t)
    ensures Linked(t)
  {
    NodesAreLinked(r, t);
  }

  lemma NodesAreLinked(r: Rules, t: Tree)
    requires NodesOk(r, t)
    ensures Linked(t)
  {
    hide Validate, NodeOk;
    forall h | h in t.nodes && t.nodes[h].parent != ZERO
      ensures t.nodes[h].parent in t.nodes && t.nodes[t.nodes[h].parent].nextHeight < t.nodes[h].nextHeight
    {
      ParentBelow(r, t, h);
    }
  }

  /** The blocks from the root down to `h`. */
  ghost function PathTo(t: Tree, h: Digest): seq<Block>
    requires Linked(t) && h in t.nodes
    decreases t.nodes[h].nextHeight
  {
    assert ParentLower(t, h);
    var n := t.nodes[h];
    (if n.parent == ZERO then [] else PathTo(t, n.parent)) + [n.block]
  }

  ghost function BestChain(t: Tree): seq<Block>
    requires Linked(t)
  {
    if t.bestTip.Some? && t.bestTip.value in t.nodes then PathTo(t, t.bestTip.value) else []
  }

  lemma {:induction false} PathStable(t: Tree, u: Tree, h: Digest)
    requires Linked(t) && Linked(u) && Grows(t, u)
    requires h in t.nodes
    ensures PathTo(u, h) == PathTo(t, h)
    decreases t.nodes[h].nextHeight
  {
    assert ParentLower(t, h);
    if t.nodes[h].parent != ZERO {
      PathStable(t, u, t.nodes[h].parent);
    }
  }

  /** A path is a valid chain as long as its tip is high, and ends at that tip. */
  lemma {:induction false} PathIsValidChain(r: Rules, t: Tree, h: Digest)
    requires NodesOk(r, t) && Linked(t) && h in t.nodes
    ensures |PathTo(t, h)| == t.nodes[h].nextHeight
    ensures HeadHash(r, PathTo(t, h)) == h
    ensures PathTo(t, h)[|PathTo(t, h)| - 1] == t.nodes[h].block
    ensures ValidChain(r, PathTo(t, h))
    decreases t.nodes[h].nextHeight
  {
    hide Validate;
    var n := t.nodes[h];
    assert NodeOk(r, t, h);
    ParentBelow(r, t, h);
    if n.parent == ZERO {
      assert ChainContext(r, []) == GENESIS;
      ValidChainAppend(r, [], n.block);
      assert [] + [n.block] == PathTo(t, h);
    } else {
      assert ParentLower(t, h);
      PathIsValidChain(r, t, n.parent);
      assert NodeOk(r, t, n.parent);
      assert ChainContext(r, PathTo(t, n.parent)) == ContextFor(t, n.block).value;
      ValidChainAppend(r, PathTo(t, n.parent), n.block);
    }
  }

  /** Every block on the path is known, and the path to it is the part of the path that ends there. */
  lemma {:induction false} PathPrefix(r: Rules, t: Tree, h: Digest, i: nat)
    requires NodesOk(r, t) && Linked(t) && h in t.nodes
    requires i < |PathTo(t, h)|
    ensures BlockHash(r, PathTo(t, h)[i]) in t.nodes
    ensures t.nodes[BlockHash(r, PathTo(t, h)[i])].block == PathTo(t, h)[i]
    ensures PathTo(t, BlockHash(r, PathTo(t, h)[i])) == PathTo(t, h)[..i + 1]
    decreases t.nodes[h].nextHeight
  {
    hide Validate;
    PathIsValidChain(r, t, h);
    var path := PathTo(t, h);
    assert NodeOk(r, t, h);
    if i == |path| - 1 {
      assert path[..i + 1] == path;
    } else {
      assert ParentLower(t, h);
      var p := t.nodes[h].parent;
      PathPrefix(r, t, p, i);
      assert path[..i + 1] == PathTo(t, p)[..i + 1];
    }
  }

  /** What the tree reports about its best tip is what the best chain says. */
  lemma BestChainFacts(r: Rules, t: Tree)
    requires WellFormed(r, t)
    ensures Linked(t)
    ensures ValidChain(r, BestChain(t))
    ensures HeadHash(r, BestChain(t)) == BestHash(t)
    ensures |BestChain(t)| == BestHeight(t)
    ensures CurrentModel(BestChain(t)) == BestModel(t)
  {
    WellFormedIsLinked(r, t);
    if t.bestTip.Some? {
      PathIsValidChain(r, t, t.bestTip.value);
    }
  }

  function BestHash(t: Tree): Digest {
    if t.bestTip.Some? then t.bestTip.value else ZERO
  }

  function BestHeight(t: Tree): nat {
    if t.bestTip.Some? && t.bestTip.value in t.nodes then t.nodes[t.bestTip.value].nextHeight else 0
  }

  function BestModel(t: Tree): ModelState {
    if t.bestTip.Some? && t.bestTip.value in t.nodes then t.nodes[t.bestTip.value].block.header.modelAfter
    else GENESIS_MODEL
  }
}

/** `ForkChoiceState`: the block tree as the source keeps it, updated in place. */
module ForkChoice {
  import opened Prelude
  import opened Domain
  import opened Validation
  import opened Training
  import opened ForkTree
  import opened Chain

  class ForkChoiceState {
    const rules: Rules
    var nodes: map<Digest, ForkNode>
    var bestTip: Option<Digest>

    constructor (r: Rules)
      ensures rules == r && View() == EMPTY
    {
      rules := r;
      nodes := map[];
      bestTip := None;
    }

    /** `clone`. */
    constructor Clone(other: ForkChoiceState)
      ensures rules == other.rules && View() == other.View()
    {
      rules := other.rules;
      nodes := other.nodes;
      bestTip := other.bestTip;
    }

    function View(): Tree
      reads this
    {
      Tree(nodes, bestTip)
    }

    method Best() returns (best: ParentContext)
      ensures best == ParentContext(BestHeight(View()), BestHash(View()), BestModel(View()))
    {
      var height := if bestTip.Some? && bestTip.value in nodes then nodes[bestTip.value].nextHeight else 0;
      var hash := if bestTip.Some? then bestTip.value else ZERO;
      var model :=
        if bestTip.Some? && bestTip.value in nodes then nodes[bestTip.value].block.header.modelAfter
        else GENESIS_MODEL;
      best := ParentContext(height, hash, model);
    }

    /** `best_chain`: walk from the best tip to the root, then turn the list round. */
    method ListBestChain() returns (chain: seq<Block>)
      requires Linked(View())
      ensures chain == BestChain(View())
    {
      var collected: seq<Block> := [];
      var cursor := bestTip;
      ghost var rest := BestChain(View());
      while cursor.Some?
        invariant BestChain(View()) == rest + Reversed(collected)
        invariant rest == if cursor.Some? && cursor.value in nodes then PathTo(View(), cursor.value) else []
        decreases if cursor.Some? then 1 + (if cursor.value in nodes then nodes[cursor.value].nextHeight else 0) else 0
      {
        if cursor.value !in nodes {
          break;
        }
        var node := nodes[cursor.value];
        assert ParentLower(View(), cursor.value);
        ghost var above := if node.parent == ZERO then [] else PathTo(View(), node.parent);
        assert rest == above + [node.block];
        ReversedAppend(collected, node.block);
        assert rest + Reversed(collected) == above + Reversed(collected + [node.block]);
        collected := collected + [node.block];
        cursor := if node.parent == ZERO then None else Some(node.parent);
        rest := above;
      }
      chain := Reversed(collected);
      assert rest == [];
    }

    /** `maybe_update_best`. */
    method MaybeUpdateBest(candidate: Digest)
      modifies this
      ensures View() == WithCandidate(old(View()), candidate)
    {
      if candidate !in nodes {
        return;
      }
      var shouldUpdate;
      if bestTip.Some? && bestTip.value in nodes {
        shouldUpdate := IsBetterTip(nodes[candidate], nodes[bestTip.value]);
      } else {
        shouldUpdate := true;
      }
      if shouldUpdate {
        bestTip := Some(candidate);
      }
    }

    /** `insert_block`. A well-formed tree stays well formed, and no known block is overwritten. */
    method InsertBlock(b: Block) returns (result: Result<Digest, ForkChoiceError>)
      modifies this
      ensures (View(), result) == Insert(rules, old(View()), b)
      ensures WellFormed(rules, old(View())) ==> WellFormed(rules, View())
      ensures Grows(old(View()), View())
    {
      hide Validate, IsBetterTip, WellFormed;
      InsertGrows(rules, View(), b);
      if WellFormed(rules, View()) {
        InsertKeepsWellFormed(rules, View(), b);
      }
      var hash := BlockHash(rules, b);
      if hash in nodes {
        return Ok(hash);
      }
      var parentContext := GENESIS;
      var parentScore: u128 := 0;
      if b.header.previousBlock != ZERO {
        if b.header.previousBlock !in nodes {
          return Err(UnknownParent(b.header.previousBlock));
        }
        var parent := nodes[b.header.previousBlock];
        parentContext := ParentContext(parent.nextHeight, parent.hash, parent.block.header.modelAfter);
        parentScore := parent.workScore;
      }
      var outcome := ValidateBlockAfter(rules, parentContext, b);
      if outcome.Fail? {
        return Err(InvalidBlock(outcome.error));
      }
      var workScore := AddWork(parentScore, BlockWork(rules));
      nodes := nodes[hash := ForkNode(hash, b.header.previousBlock, b, b.header.height + 1, workScore)];
      MaybeUpdateBest(hash);
      return Ok(hash);
    }

    /** `mine_next_block`; `None` when no nonce meets the difficulty. */
    method MineNextBlock(seed: u64, entropy: u64) returns (mined: Option<Block>)
      requires BestHeight(View()) < TWO64
      ensures var best := ParentContext(BestHeight(View()), BestHash(View()), BestModel(View()));
              && mined == Mined(rules, best, seed, entropy, 0)
              && (mined.Some? ==> IsMinedFor(rules, mined.value, best, seed, entropy))
    {
      var best := Best();
      mined := MineAfter(rules, best, seed, entropy);
    }
  }
}

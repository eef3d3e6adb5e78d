/** `NodeState` as the source keeps it: objects and counters updated in place, step by step equal to the value model. */
module NodeStateMachine {
  import opened Prelude
  import opened Domain
  import opened Validation
  import opened Training
  import opened ForkTree
  import opened Chain
  import opened ForkOrder
  import opened ForkChoice
  import opened Node
  import opened NodeRuns
  import opened TipOrder
  import opened Sync
  import opened SyncProtocol

  lemma LeadingBlocksAt(replies: seq<Reply>, n: nat)
    requires n <= |replies|
    requires forall i :: 0 <= i < n ==> replies[i].BlockReply?
    ensures |LeadingBlocks(replies)| >= n
    ensures forall i :: 0 <= i < n ==> LeadingBlocks(replies)[i] == replies[i].block
    ensures n < |replies| && !replies[n].BlockReply? ==> |LeadingBlocks(replies)| == n
    ensures n == |replies| ==> |LeadingBlocks(replies)| == n
  {
    if n > 0 {
      LeadingBlocksAt(replies[1..], n - 1);
    }
  }

  class NodeState {
    const rules: Rules
    const storage: bool
    var chain: ChainState
    var forkChoice: ForkChoiceState
    var log: seq<Block>
    var acceptedBlocks: nat
    var rejectedBlocks: nat
    var syncedBlocks: nat
    var minedBlocks: nat
    var reorgs: nat
    var storageFailures: nat

    constructor (r: Rules, persistent: bool)
      ensures Valid() && fresh(chain) && fresh(forkChoice)
      ensures rules == r
      ensures View() == NodeView([], EMPTY, persistent, [], 0, 0, 0, 0, 0, 0)
    {
      rules := r;
      storage := persistent;
      chain := new ChainState(r);
      forkChoice := new ForkChoiceState(r);
      log := [];
      acceptedBlocks, rejectedBlocks, syncedBlocks, minedBlocks, reorgs, storageFailures := 0, 0, 0, 0, 0, 0;
    }

    ghost predicate Valid()
      reads this, chain, forkChoice
    {
      chain.rules == rules && forkChoice.rules == rules
    }

    function View(): NodeView
      reads this, chain, forkChoice
    {
      NodeView(chain.blocks, forkChoice.View(), storage, log, acceptedBlocks, rejectedBlocks, syncedBlocks, minedBlocks,
               reorgs, storageFailures)
    }

    /** `activate_best_chain` never fails on a well-formed tree. */
    method ActivateBestChain() returns (result: Result<bool, BlockError>)
      requires Valid() && WellFormed(rules, forkChoice.View())
      modifies this`chain
      ensures Valid() && (chain == old(chain) || fresh(chain))
      ensures Linked(forkChoice.View())
      ensures View() == Activated(rules, old(View()))
      ensures result == Ok(HeadHash(rules, old(chain.blocks)) != BestHash(forkChoice.View()))
    {
      hide Validate, IsBetterTip, WellFormed;
      BestChainFacts(rules, forkChoice.View());
      var oldHead := HeadHash(rules, chain.blocks);
      var best := forkChoice.Best();
      if oldHead == best.hash {
        return Ok(false);
      }
      var blocks := forkChoice.ListBestChain();
      var rebuilt := ChainFromBlocks(rules, blocks);
      if rebuilt.Err? {
        // The source returns an error here.
        assert false;
      }
      chain := rebuilt.value;
      return Ok(true);
    }

    /** `persist_block`; whether the append succeeds is up to the file system. */
    method PersistBlock(b: Block, appended: bool)
      requires Valid()
      modifies this`log, this`storageFailures
      ensures Valid() && View() == Persisted(old(View()), b, appended)
    {
      if !storage {
        return;
      }
      if appended {
        log := log + [b];
      } else {
        storageFailures := storageFailures + 1;
      }
    }

    /** The counters of `apply_incoming_block`. Activation never fails, so its result plays no part. */
    method CountBlock(b: Block, oldHead: Digest, source: BlockSource)
      requires Valid()
      modifies this`reorgs, this`acceptedBlocks, this`syncedBlocks
      ensures Valid() && View() == CountedBlock(rules, old(View()), b, oldHead, source)
    {
      hide HeadHash, BlockHash;
      if && oldHead != ZERO
         && b.header.previousBlock != oldHead
         && HeadHash(rules, chain.blocks) == BlockHash(rules, b)
      {
        reorgs := reorgs + 1;
      }
      if source == Gossip {
        acceptedBlocks := acceptedBlocks + 1;
      } else {
        syncedBlocks := syncedBlocks + 1;
      }
    }

    /** The second half of `apply_incoming_block`: the tree has taken the block in, `before` is the state before that. */
    method RecordAcceptance(b: Block, source: BlockSource, disk: Disk, ghost before: NodeView)
      requires Valid() && WellFormed(rules, forkChoice.View())
      requires View() == before.(tree := forkChoice.View())
      modifies this
      ensures Valid() && forkChoice == old(forkChoice) && (chain == old(chain) || fresh(chain))
      ensures Linked(forkChoice.View()) && forkChoice.View() == old(forkChoice.View())
      ensures View() == AfterAcceptance(rules, before, b, forkChoice.View(), source, disk)
    {
      hide Validate, IsBetterTip, WellFormed, Activated, Persisted, HeadHash, BestHash, BestChain, Linked, BlockHash,
           PathTo, EMPTY, CountedBlock;
      var oldHead := HeadHash(rules, chain.blocks);
      PersistBlock(b, disk(BlockHash(rules, b)));
      var activated := ActivateBestChain();
      assert activated.Ok?;
      CountBlock(b, oldHead, source);
    }

    /** `apply_incoming_block`. */
    method ApplyIncomingBlock(b: Block, source: BlockSource, disk: Disk) returns (application: BlockApplication)
      requires Valid() && WellFormed(rules, forkChoice.View())
      modifies this, forkChoice
      ensures Valid() && forkChoice == old(forkChoice) && (chain == old(chain) || fresh(chain))
      ensures View() == Applied(rules, old(View()), b, source, disk).0
      ensures application == Applied(rules, old(View()), b, source, disk).1
      ensures WellFormed(rules, forkChoice.View())
    {
      hide Validate, IsBetterTip, WellFormed, Insert, Applied, AfterAcceptance, Linked, Grows;
      ghost var before := View();
      AppliedTree(rules, before, b, source, disk);
      AppliedCases(rules, before, b, source, disk);
      var hash := BlockHash(rules, b);
      if hash in forkChoice.nodes {
        return AlreadyKnown;
      }
      var inserted := forkChoice.InsertBlock(b);
      if inserted.Err? {
        if source == Gossip {
          rejectedBlocks := rejectedBlocks + 1;
        }
        return Rejected;
      }
      RecordAcceptance(b, source, disk, before);
      return Accepted;
    }

    /**
     * `mine_once`. The two assertions are the source's `expect`s; `None` means that no nonce meets the difficulty, where
     * the source does not return.
     */
    method MineOnce(seed: u64, entropy: u64, disk: Disk) returns (mined: Option<Block>)
      requires Valid() && WellFormed(rules, forkChoice.View()) && SamplerSound(rules)
      requires BestHeight(forkChoice.View()) < TWO64 && forkChoice.bestTip != Some(ZERO)
      modifies this, forkChoice
      ensures Valid() && forkChoice == old(forkChoice) && (chain == old(chain) || fresh(chain))
      ensures mined == Mined(rules, BestContext(old(View()).tree), seed, entropy, 0)
      ensures mined.Some? ==> IsMinedFor(rules, mined.value, BestContext(old(View()).tree), seed, entropy)
      ensures mined.None? ==> View() == old(View())
      ensures mined.Some? ==> View() == AfterMining(rules, old(View()), mined.value, disk)
      ensures WellFormed(rules, forkChoice.View())
    {
      hide Mined, Validate, IsBetterTip, WellFormed, Insert, Activated, SamplerSound;
      mined := forkChoice.MineNextBlock(seed, entropy);
      if mined.None? {
        return;
      }
      MinedInsertFailsExactly(rules, forkChoice.View(), seed, entropy);
      var inserted := forkChoice.InsertBlock(mined.value);
      assert inserted.Ok?;
      var activated := ActivateBestChain();
      assert activated.Ok?;
      PersistBlock(mined.value, disk(BlockHash(rules, mined.value)));
      minedBlocks := minedBlocks + 1;
    }

    /** `validate_sync_batch`: a dry run on a copy of the tree. */
    method ValidateSyncBatch(blocks: seq<Block>) returns (ok: bool)
      requires Valid() && WellFormed(rules, forkChoice.View())
      ensures ok == AllAccepted(rules, forkChoice.View(), blocks)
    {
      hide Validate, IsBetterTip, WellFormed, Insert;
      ghost var t := forkChoice.View();
      var copy := new ForkChoiceState.Clone(forkChoice);
      var i := 0;
      assert blocks[..0] == [];
      while i < |blocks|
        invariant 0 <= i <= |blocks|
        invariant fresh(copy) && copy.rules == rules
        invariant copy.View() == InsertAll(rules, t, blocks[..i])
        invariant AllAccepted(rules, t, blocks[..i])
        invariant WellFormed(rules, copy.View())
      {
        var b := blocks[i];
        assert blocks[..i + 1] == blocks[..i] + [b];
        InsertAllAppend(rules, t, blocks[..i], b);
        AllAcceptedAppend(rules, t, blocks[..i], b);
        InsertGrows(rules, copy.View(), b);
        var hash := BlockHash(rules, b);
        if hash !in copy.nodes {
          var inserted := copy.InsertBlock(b);
          if inserted.Err? {
            if AllAccepted(rules, t, blocks) {
              AllAcceptedPrefix(rules, t, blocks, i + 1);
            }
            return false;
          }
        }
        i := i + 1;
      }
      assert blocks[..i] == blocks;
      BestChainFacts(rules, copy.View());
      var best := copy.ListBestChain();
      var rebuilt := ChainFromBlocks(rules, best);
      ok := rebuilt.Ok?;
    }

    /** The end of `blocks_from_peer`: dry run, then commit. The branch for a refused block is dead. */
    method CommitBatch(blocks: seq<Block>, disk: Disk) returns (ok: bool)
      requires Valid() && WellFormed(rules, forkChoice.View())
      modifies this, forkChoice
      ensures Valid() && forkChoice == old(forkChoice) && (chain == old(chain) || fresh(chain))
      ensures (View(), ok) == SyncBatch(rules, old(View()), blocks, disk)
      ensures WellFormed(rules, forkChoice.View())
    {
      hide Validate, IsBetterTip, WellFormed, Insert, Applied;
      ok := ValidateSyncBatch(blocks);
      if !ok {
        return;
      }
      ghost var v := View();
      var i := 0;
      while i < |blocks|
        invariant 0 <= i <= |blocks|
        invariant Valid() && forkChoice == old(forkChoice) && (chain == old(chain) || fresh(chain))
        invariant WellFormed(rules, forkChoice.View())
        invariant AllAccepted(rules, forkChoice.View(), blocks[i..])
        invariant Committed(rules, View(), blocks[i..], disk) == Committed(rules, v, blocks, disk)
      {
        ghost var before := View();
        AppliedTree(rules, before, blocks[i], Sync, disk);
        assert blocks[i..][0] == blocks[i] && blocks[i..][1..] == blocks[i + 1..];
        var application := ApplyIncomingBlock(blocks[i], Sync, disk);
        assert application != Rejected;
        i := i + 1;
      }
      assert blocks[i..] == [];
    }

    /** `blocks_from_peer`, reading one reply after another. */
    method BlocksFromPeer(expected: seq<Digest>, replies: seq<Reply>, disk: Disk) returns (ok: bool)
      requires Valid() && WellFormed(rules, forkChoice.View())
      modifies this, forkChoice
      ensures Valid() && forkChoice == old(forkChoice) && (chain == old(chain) || fresh(chain))
      ensures WellFormed(rules, forkChoice.View())
      ensures match Fetched(rules, expected, replies)
              case None => !ok && View() == old(View())
              case Some(blocks) => (View(), ok) == SyncBatch(rules, old(View()), blocks, disk)
    {
      hide Validate, IsBetterTip, WellFormed;
      var received: seq<Block> := [];
      while |received| < |replies| && replies[|received|].BlockReply?
        invariant Valid() && View() == old(View()) && forkChoice == old(forkChoice) && chain == old(chain)
        invariant WellFormed(rules, forkChoice.View())
        invariant |received| <= |replies| && |received| <= |expected|
        invariant forall i :: 0 <= i < |received| ==> replies[i].BlockReply? && received[i] == replies[i].block
        invariant forall i :: 0 <= i < |received| ==> BlockHash(rules, received[i]) == expected[i]
        decreases |replies| - |received|
      {
        ghost var n := |received|;
        LeadingBlocksAt(replies, n + 1);
        var b := replies[|received|].block;
        if |received| >= |expected| || BlockHash(rules, b) != expected[|received|] {
          return false;
        }
        received := received + [b];
      }
      LeadingBlocksAt(replies, |received|);
      assert LeadingBlocks(replies) == received;
      if |received| == |replies| || replies[|received|] != EndBlocks || |received| != |expected| {
        return false;
      }
      ok := CommitBatch(received, disk);
    }

    /** What other threads do while this one does not hold the lock: any events but a restart, one after another. */
    method Perform(events: seq<Event>)
      requires Valid() && WellFormed(rules, forkChoice.View()) && SamplerSound(rules)
      requires forall i :: 0 <= i < |events| ==> !events[i].Restart?
      requires Always(rules, View(), events, (w: NodeView) => ZeroFree(w.tree))
      modifies this, forkChoice
      ensures Valid() && forkChoice == old(forkChoice) && (chain == old(chain) || fresh(chain))
      ensures WellFormed(rules, forkChoice.View())
      ensures View() == Run(rules, old(View()), events)
    {
      hide Validate, IsBetterTip, WellFormed, Insert, Applied, SamplerSound, ZeroFree, Step;
      ghost var v := View();
      var i := 0;
      assert events[0..] == events;
      while i < |events|
        invariant 0 <= i <= |events|
        invariant Valid() && forkChoice == old(forkChoice) && (chain == old(chain) || fresh(chain))
        invariant WellFormed(rules, forkChoice.View())
        invariant Always(rules, View(), events[i..], (w: NodeView) => ZeroFree(w.tree))
        invariant Run(rules, View(), events[i..]) == Run(rules, v, events)
      {
        ghost var before := View();
        assert events[i..][0] == events[i] && events[i..][1..] == events[i + 1..];
        PerformOne(events[i]);
        i := i + 1;
      }
      assert events[i..] == [];
    }

    method PerformOne(e: Event)
      requires Valid() && WellFormed(rules, forkChoice.View()) && SamplerSound(rules)
      requires !e.Restart? && ZeroFree(forkChoice.View())
      modifies this, forkChoice
      ensures Valid() && forkChoice == old(forkChoice) && (chain == old(chain) || fresh(chain))
      ensures WellFormed(rules, forkChoice.View())
      ensures View() == Step(rules, old(View()), e)
    {
      hide Validate, IsBetterTip, WellFormed, Insert, Applied, SamplerSound, AfterMining, SyncBatch;
      match e {
        case Mine(seed, entropy, disk) =>
          var best := forkChoice.Best();
          if best.height < TWO64 {
            BestTipKnown(rules, forkChoice.View());
            var mined := MineOnce(seed, entropy, disk);
          }
        case Receive(block, disk) =>
          var application := ApplyIncomingBlock(block, Gossip, disk);
        case Batch(blocks, disk) =>
          var ok := CommitBatch(blocks, disk);
      }
    }

    /** The first lock section of `sync_from_peer`: screen the headers, and see whether any is news. */
    method ScreenHeaders(locator: seq<Digest>, headers: seq<BlockHeader>) returns (ok: bool, hasUnknownBlock: bool)
      requires Valid()
      ensures ok == HeadersAccepted(rules, chain.blocks, locator, headers)
      ensures hasUnknownBlock == !AllKnown(forkChoice.View(), HeaderHashes(rules, headers))
    {
      var expectedHashes := HeaderHashes(rules, headers);
      ok := ValidateHeadersAfterLocator(rules, chain.blocks, locator, headers);
      hasUnknownBlock := exists i :: 0 <= i < |expectedHashes| && expectedHashes[i] !in forkChoice.nodes;
    }

    /**
     * `sync_from_peer`, with what the peer answers and what other threads do between its two lock sections as arguments.
     */
    method SyncFromPeer(
        locator: seq<Digest>, limit: nat, answer: Option<seq<BlockHeader>>, meanwhile: seq<Event>, replies: seq<Reply>,
        disk: Disk) returns (ok: bool)
      requires Valid() && WellFormed(rules, forkChoice.View()) && SamplerSound(rules)
      requires forall i :: 0 <= i < |meanwhile| ==> !meanwhile[i].Restart?
      requires Always(rules, View(), meanwhile, (w: NodeView) => ZeroFree(w.tree))
      modifies this, forkChoice
      ensures Valid() && forkChoice == old(forkChoice) && (chain == old(chain) || fresh(chain))
      ensures WellFormed(rules, forkChoice.View()) && WellFormed(rules, Run(rules, old(View()), meanwhile).tree)
      ensures (View(), ok) ==
                SyncOutcome(rules, old(View()), Run(rules, old(View()), meanwhile), locator, limit, answer, replies, disk)
    {
      hide Validate, IsBetterTip, WellFormed, Fetched, HeadersAccepted, SyncBatch, AllKnown, Run, SamplerSound;
      var screened, hasUnknownBlock := false, false;
      if answer.Some? && |answer.value| <= limit {
        screened, hasUnknownBlock := ScreenHeaders(locator, answer.value);
      }
      Perform(meanwhile);
      if !screened {
        return false;
      }
      if !hasUnknownBlock {
        return true;
      }
      ok := BlocksFromPeer(HeaderHashes(rules, answer.value), replies, disk);
    }
  }
}

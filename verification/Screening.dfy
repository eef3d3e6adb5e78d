/** What screening headers already rules out about the blocks fetched afterwards. */
module Screening {
  import opened Domain
  import opened Validation
  import opened Binding
  import opened ForkTree
  import opened ForkOrder
  import opened Node
  import opened Sync
  import opened SyncProtocol

  /** Errors that only the trace or the models of a block can cause. */
  predicate TraceOrModelError(e: BlockError) {
    || e.WrongModelBefore? || e.WrongModelAfter? || e.WrongTraceLength?
    || e.WrongTraceRoot? || e.WrongTraceContinuity? || e.InvalidSample?
  }

  /** A block whose header fits its parent can only fail for trace or model reasons. */
  lemma FittingHeaderFailsOnlyOnTrace(r: Rules, parent: ParentContext, b: Block)
    requires HeaderFits(r, ParentContext(parent.height, parent.hash, GENESIS_MODEL), b.header)
    ensures Validate(r, parent, b).Fail? ==> TraceOrModelError(Validate(r, parent, b).error)
  {
  }

  /** Two different headers with one hash. */
  ghost predicate HeadersCollide(r: Rules, g: BlockHeader, h: BlockHeader) {
    r.encode.header(g) != r.encode.header(h) && HeaderHash(r, g) == HeaderHash(r, h)
  }

  lemma SameHashSameHeader(r: Rules, g: BlockHeader, h: BlockHeader)
    requires HeaderHash(r, g) == HeaderHash(r, h) && !HeadersCollide(r, g, h)
    ensures g == h
  {
    HeaderLayoutInjective(r, g, h);
  }

  /** No screened header collides with a known block, with the block fetched for it, or hashes to zero. */
  ghost predicate CleanHashes(r: Rules, t: Tree, headers: seq<BlockHeader>, blocks: seq<Block>) {
    && (forall i :: 0 <= i < |headers| ==> HeaderHash(r, headers[i]) != ZERO)
    && (forall i, h :: 0 <= i < |headers| && h in t.nodes ==> !HeadersCollide(r, t.nodes[h].block.header, headers[i]))
    && (forall i :: 0 <= i < |headers| && i < |blocks| ==> !HeadersCollide(r, blocks[i].header, headers[i]))
  }

  /** In the chain at `start` or above: the known block under `headers[i - 1]`'s hash is one below `headers[i]`. */
  lemma ScreenedParent(r: Rules, u: Tree, headers: seq<BlockHeader>, blocks: seq<Block>, start: nat, i: nat)
    requires NodesOk(r, u) && CleanHashes(r, u, headers, blocks)
    requires 0 < i < |headers|
    requires HeaderFollows(r, headers, start, i - 1) && HeaderFollows(r, headers, start, i)
    requires HeaderHash(r, headers[i - 1]) in u.nodes
    ensures headers[i].previousBlock in u.nodes && headers[i].previousBlock != ZERO
    ensures u.nodes[headers[i].previousBlock].nextHeight == headers[i].height
    ensures u.nodes[headers[i].previousBlock].hash == headers[i].previousBlock
  {
    hide Validate, HeadersCollide;
    var h := HeaderHash(r, headers[i - 1]);
    assert NodeOk(r, u, h);
    SameHashSameHeader(r, u.nodes[h].block.header, headers[i - 1]);
  }

  /** The first header attaches to a block of the active chain, at the right height. */
  lemma ScreenedFirst(r: Rules, v: NodeView, u: Tree, locator: seq<Digest>, headers: seq<BlockHeader>)
    requires ViewIsBestBranch(r, v) && Grows(v.tree, u)
    requires headers != [] && HeadersAccepted(r, v.chain, locator, headers)
    requires headers[0].previousBlock != ZERO
    ensures headers[0].previousBlock in u.nodes
    ensures u.nodes[headers[0].previousBlock].nextHeight == headers[0].height
    ensures u.nodes[headers[0].previousBlock].hash == headers[0].previousBlock
  {
    hide Validate, IsBetterTip, HeaderFits;
    PositionMeaning(r, v.chain, headers[0].previousBlock, 0);
    var start := AttachHeight(r, v.chain, locator, headers[0].previousBlock).value;
    assert HeaderFollows(r, headers, start, 0);
    FollowsHeight(r, headers, start, 0);
    ChainBlockKnown(r, v, start - 1);
  }

  lemma FollowsHeight(r: Rules, headers: seq<BlockHeader>, start: nat, i: nat)
    requires i < |headers| && HeaderFollows(r, headers, start, i)
    ensures headers[i].height == start + i
  {
  }

  lemma InsertFailsOnlyOnTrace(r: Rules, u: Tree, b: Block)
    requires ContextFor(u, b).Some?
    requires ContextFor(u, b).value.height == b.header.height && ContextFor(u, b).value.hash == b.header.previousBlock
    requires HeaderFits(r, ParentContext(b.header.height, b.header.previousBlock, GENESIS_MODEL), b.header)
    ensures Insert(r, u, b).1.Err? ==>
              Insert(r, u, b).1.error.InvalidBlock? && TraceOrModelError(Insert(r, u, b).1.error.cause)
  {
    hide Validate, IsBetterTip, TraceOrModelError, HeaderFits;
    FittingHeaderFailsOnlyOnTrace(r, ContextFor(u, b).value, b);
  }

  /**
   * Screening covers the header half of validation. Once headers have passed in the state `v`, inserting the blocks that
   * match their hashes, in order and into whatever the tree has grown to meanwhile, can fail only for reasons of trace or
   * model: never for an unknown parent, a wrong height or parent hash, a lowered sample count or missing work.
   */
  lemma ScreenedBlocksFailOnlyOnTrace(
      r: Rules, v: NodeView, now: Tree, locator: seq<Digest>, headers: seq<BlockHeader>, blocks: seq<Block>, i: nat)
    requires ViewIsBestBranch(r, v) && WellFormed(r, now) && Grows(v.tree, now)
    requires HeadersAccepted(r, v.chain, locator, headers)
    requires |blocks| == |headers| && i < |blocks|
    requires forall j :: 0 <= j < |blocks| ==> BlockHash(r, blocks[j]) == HeaderHash(r, headers[j])
    requires AllAccepted(r, now, blocks[..i])
    requires CleanHashes(r, InsertAll(r, now, blocks[..i]), headers, blocks)
    ensures var result := Insert(r, InsertAll(r, now, blocks[..i]), blocks[i]).1;
            result.Err? ==> result.error.InvalidBlock? && TraceOrModelError(result.error.cause)
  {
    hide Validate, IsBetterTip, WellFormed, HeaderFits, CleanHashes, Insert, InsertAll, AllAccepted, ViewIsBestBranch;
    var u, b := InsertAll(r, now, blocks[..i]), blocks[i];
    InsertAllKeepsWellFormed(r, now, blocks[..i]);
    NodesOfWellFormed(r, u);
    CleanBlock(r, u, headers, blocks, i);
    var start := AttachHeight(r, v.chain, locator, headers[0].previousBlock).value;
    assert HeaderFollows(r, headers, start, i);
    FollowsHeight(r, headers, start, i);
    FollowsPrevious(r, headers, start, i);
    if i > 0 {
      assert HeaderFollows(r, headers, start, i - 1);
      AcceptedIsKnown(r, now, blocks[..i], i - 1);
      ScreenedParent(r, u, headers, blocks, start, i);
    } else if headers[0].previousBlock != ZERO {
      ScreenedFirst(r, v, u, locator, headers);
    }
    SameFit(r, headers, start, i, ParentContext(b.header.height, b.header.previousBlock, GENESIS_MODEL));
    InsertFailsOnlyOnTrace(r, u, b);
  }

  lemma CleanBlock(r: Rules, u: Tree, headers: seq<BlockHeader>, blocks: seq<Block>, i: nat)
    requires CleanHashes(r, u, headers, blocks) && i < |headers| && i < |blocks|
    requires BlockHash(r, blocks[i]) == HeaderHash(r, headers[i])
    ensures blocks[i].header == headers[i]
  {
    hide HeadersCollide;
    SameHashSameHeader(r, blocks[i].header, headers[i]);
  }

  lemma FollowsPrevious(r: Rules, headers: seq<BlockHeader>, start: nat, i: nat)
    requires i < |headers| && HeaderFollows(r, headers, start, i)
    ensures i > 0 ==> headers[i].previousBlock == HeaderHash(r, headers[i - 1])
  {
  }

  lemma SameFit(r: Rules, headers: seq<BlockHeader>, start: nat, i: nat, parent: ParentContext)
    requires i < |headers| && HeaderFollows(r, headers, start, i)
    requires parent.height == headers[i].height && parent.hash == headers[i].previousBlock
    ensures HeaderFits(r, ParentContext(parent.height, parent.hash, GENESIS_MODEL), headers[i])
  {
  }

  lemma {:induction false} AcceptedIsKnown(r: Rules, t: Tree, blocks: seq<Block>, j: nat)
    requires AllAccepted(r, t, blocks) && j < |blocks| && WellFormed(r, t)
    ensures BlockHash(r, blocks[j]) in InsertAll(r, t, blocks).nodes
    decreases |blocks|
  {
    hide Validate, IsBetterTip, WellFormed, Insert;
    InsertGrows(r, t, blocks[0]);
    InsertKeepsWellFormed(r, t, blocks[0]);
    var u := Insert(r, t, blocks[0]).0;
    InsertAllKeepsWellFormed(r, u, blocks[1..]);
    if j > 0 {
      AcceptedIsKnown(r, u, blocks[1..], j - 1);
    }
  }
}

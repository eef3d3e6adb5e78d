/** One round of sync between two nodes, and what rounds achieve: the better tip, convergence, catching up. */
module SyncProtocol {
  import opened Prelude
  import opened Domain
  import opened Validation
  import opened ForkTree
  import opened Chain
  import opened ForkOrder
  import opened Node
  import opened Sync

  // ---------------------------------------------------------------- fetching blocks

  /** One line read from the peer while fetching blocks. */
  datatype Reply = BlockReply(block: Block) | EndBlocks | OtherReply | ReadFailure

  function LeadingBlocks(replies: seq<Reply>): (blocks: seq<Block>)
    ensures |blocks| <= |replies|
  {
    if replies != [] && replies[0].BlockReply? then [replies[0].block] + LeadingBlocks(replies[1..]) else []
  }

  /** The blocks received, if they match the expected hashes one by one and are properly ended. */
  function Fetched(r: Rules, expected: seq<Digest>, replies: seq<Reply>): Option<seq<Block>> {
    var blocks := LeadingBlocks(replies);
    if && |blocks| == |expected|
       && (forall i :: 0 <= i < |blocks| ==> BlockHash(r, blocks[i]) == expected[i])
       && |blocks| < |replies|
       && replies[|blocks|] == EndBlocks
    then Some(blocks) else None
  }

  /** What `serve_blocks_by_locator` writes. */
  function BlockReplies(blocks: seq<Block>): (replies: seq<Reply>)
    ensures |replies| == |blocks| + 1
  {
    if blocks == [] then [EndBlocks] else [BlockReply(blocks[0])] + BlockReplies(blocks[1..])
  }

  lemma {:induction false} RepliesCarryBlocks(blocks: seq<Block>)
    ensures LeadingBlocks(BlockReplies(blocks)) == blocks
    ensures BlockReplies(blocks)[|blocks|] == EndBlocks
  {
    if blocks != [] {
      RepliesCarryBlocks(blocks[1..]);
      assert BlockReplies(blocks)[1..] == BlockReplies(blocks[1..]);
    }
  }

  // ---------------------------------------------------------------- one round

  /** A node with the settings that bound its sync messages. */
  datatype Peer = Peer(view: NodeView, maxLocator: nat, maxBlocks: nat)

  function ServeHeaders(r: Rules, server: Peer, locator: seq<Digest>, limit: nat): Option<seq<BlockHeader>> {
    if |locator| > server.maxLocator then None
    else Some(Headers(BlocksAfter(r, server.view.chain, locator, Min(limit, server.maxBlocks))))
  }

  function ServeBlocks(r: Rules, server: Peer, locator: seq<Digest>, limit: nat): seq<Reply> {
    if |locator| > server.maxLocator then []
    else BlockReplies(BlocksAfter(r, server.view.chain, locator, Min(limit, server.maxBlocks)))
  }

  /** Does the tree already know every one of these hashes? */
  predicate AllKnown(t: Tree, hashes: seq<Digest>) {
    forall i :: 0 <= i < |hashes| ==> hashes[i] in t.nodes
  }

  /**
   * `sync_from_peer`, for whatever the peer answers: a list of headers (or none) and then the lines read while fetching
   * blocks. The headers are screened in the state `v`. The lock is free while blocks are fetched, so the batch is
   * committed in a later state `w`. `false` is the source's `Err`.
   */
  ghost function SyncOutcome(
      r: Rules, v: NodeView, w: NodeView, locator: seq<Digest>, limit: nat, answer: Option<seq<BlockHeader>>,
      replies: seq<Reply>, disk: Disk): (NodeView, bool)
    requires WellFormed(r, w.tree)
  {
    if answer == None || |answer.value| > limit || !HeadersAccepted(r, v.chain, locator, answer.value) then (w, false)
    else
      var expected := HeaderHashes(r, answer.value);
      if AllKnown(v.tree, expected) then (w, true)
      else
        match Fetched(r, expected, replies)
        case None => (w, false)
        case Some(blocks) => SyncBatch(r, w, blocks, disk)
  }

  /**
   * A sync attempt is all or nothing against any peer, whatever other threads do meanwhile: an error adds nothing to what
   * they did, success makes every listed block known. Headers that were not screened or are more than asked for never
   * succeed, and an attempt adds at most as many blocks as were asked for.
   */
  lemma SyncIsAtomic(
      r: Rules, v: NodeView, w: NodeView, locator: seq<Digest>, limit: nat, answer: Option<seq<BlockHeader>>,
      replies: seq<Reply>, disk: Disk)
    requires WellFormed(r, w.tree) && Grows(v.tree, w.tree)
    ensures var (x, ok) := SyncOutcome(r, v, w, locator, limit, answer, replies, disk);
            && (!ok ==> x == w)
            && (ok ==>
                  && answer.Some? && |answer.value| <= limit && HeadersAccepted(r, v.chain, locator, answer.value)
                  && AllKnown(x.tree, HeaderHashes(r, answer.value)))
            && WellFormed(r, x.tree)
            && Grows(w.tree, x.tree)
            && |x.tree.nodes| <= |w.tree.nodes| + limit
  {
    hide Validate, WellFormed, HeadersAccepted, LeadingBlocks, InsertAll;
    if answer.Some? {
      var expected := HeaderHashes(r, answer.value);
      var fetched := Fetched(r, expected, replies);
      if fetched.Some? && AllAccepted(r, w.tree, fetched.value) {
        CommittedBatch(r, w, fetched.value, disk);
        InsertAllSize(r, w.tree, fetched.value);
        forall i | 0 <= i < |expected|
          ensures expected[i] in InsertAll(r, w.tree, fetched.value).nodes
        {
          assert BlockHash(r, fetched.value[i]) == expected[i];
        }
      }
    }
  }

  /** The peer writes these blocks, one for every header in order, and then the end. */
  ghost predicate Delivers(r: Rules, headers: seq<BlockHeader>, replies: seq<Reply>, blocks: seq<Block>) {
    && BlockReplies(blocks) <= replies && |blocks| == |headers|
    && forall i :: 0 <= i < |blocks| ==> BlockHash(r, blocks[i]) == HeaderHash(r, headers[i])
  }

  lemma FetchedIsDelivered(r: Rules, headers: seq<BlockHeader>, replies: seq<Reply>, blocks: seq<Block>)
    ensures Fetched(r, HeaderHashes(r, headers), replies) == Some(blocks) <==> Delivers(r, headers, replies, blocks)
  {
    hide BlockHash, HeaderHash, Fetched, BlockReplies;
    FetchedMeaning(r, HeaderHashes(r, headers), replies, blocks);
  }

  /**
   * When a sync attempt succeeds: the headers pass, and either none of them is news and no block is read, or the peer
   * writes a block for every header and the end, and the tree of the moment takes all of them in order.
   */
  lemma SyncSucceedsExactly(
      r: Rules, v: NodeView, w: NodeView, locator: seq<Digest>, limit: nat, answer: Option<seq<BlockHeader>>,
      replies: seq<Reply>, disk: Disk)
    requires WellFormed(r, w.tree)
    ensures var (x, ok) := SyncOutcome(r, v, w, locator, limit, answer, replies, disk);
            && (ok <==>
                  && answer.Some? && |answer.value| <= limit && HeadersAccepted(r, v.chain, locator, answer.value)
                  && (|| AllKnown(v.tree, HeaderHashes(r, answer.value))
                      || exists blocks :: Delivers(r, answer.value, replies, blocks) && AllAccepted(r, w.tree, blocks)))
            && (answer.Some? && AllKnown(v.tree, HeaderHashes(r, answer.value)) ==> x == w)
  {
    hide Validate, IsBetterTip, WellFormed, HeadersAccepted, AllAccepted, Committed, Fetched, HeaderHashes, AllKnown,
         Delivers;
    if answer.Some? {
      var fetched := Fetched(r, HeaderHashes(r, answer.value), replies);
      if fetched.Some? {
        FetchedIsDelivered(r, answer.value, replies, fetched.value);
      }
      forall blocks | Delivers(r, answer.value, replies, blocks)
        ensures fetched == Some(blocks)
      {
        FetchedIsDelivered(r, answer.value, replies, blocks);
      }
    }
  }

  lemma {:induction false} InsertAllSize(r: Rules, t: Tree, blocks: seq<Block>)
    ensures |InsertAll(r, t, blocks).nodes| <= |t.nodes| + |blocks|
    decreases |blocks|
  {
    hide Insert;
    if blocks != [] {
      InsertSize(r, t, blocks[0]);
      InsertAllSize(r, Insert(r, t, blocks[0]).0, blocks[1..]);
    }
  }

  /**
   * Blocks are taken exactly if the peer writes what a server writes, one block for every expected hash in order and the
   * end, whatever it writes after that.
   */
  lemma FetchedMeaning(r: Rules, expected: seq<Digest>, replies: seq<Reply>, blocks: seq<Block>)
    ensures Fetched(r, expected, replies) == Some(blocks) <==>
              && |blocks| == |expected| && (forall i :: 0 <= i < |blocks| ==> BlockHash(r, blocks[i]) == expected[i])
              && BlockReplies(blocks) <= replies
  {
    hide BlockHash, LeadingBlocks, BlockReplies;
    LeadingEnded(replies);
    if BlockReplies(blocks) <= replies {
      LeadingOf(blocks, replies);
      RepliesAt(blocks);
    }
  }

  lemma LeadingEnded(replies: seq<Reply>)
    ensures var leading := LeadingBlocks(replies);
            |leading| < |replies| && replies[|leading|] == EndBlocks ==> BlockReplies(leading) <= replies
  {
    hide LeadingBlocks, BlockReplies;
    var leading := LeadingBlocks(replies);
    LeadingAt(replies);
    RepliesAt(leading);
    if |leading| < |replies| && replies[|leading|] == EndBlocks {
      var sent, part := BlockReplies(leading), replies[..|leading| + 1];
      assert forall i :: 0 <= i < |sent| ==> sent[i] == part[i];
      assert sent == part;
    }
  }

  lemma {:induction false} RepliesAt(blocks: seq<Block>)
    ensures BlockReplies(blocks)[|blocks|] == EndBlocks
    ensures forall i :: 0 <= i < |blocks| ==> BlockReplies(blocks)[i] == BlockReply(blocks[i])
  {
    if blocks != [] {
      RepliesAt(blocks[1..]);
    }
  }

  lemma {:induction false} LeadingAt(replies: seq<Reply>)
    ensures forall i :: 0 <= i < |LeadingBlocks(replies)| ==> replies[i] == BlockReply(LeadingBlocks(replies)[i])
  {
    if replies != [] && replies[0].BlockReply? {
      LeadingAt(replies[1..]);
    }
  }

  lemma {:induction false} LeadingOf(blocks: seq<Block>, replies: seq<Reply>)
    requires BlockReplies(blocks) <= replies
    ensures LeadingBlocks(replies) == blocks
  {
    assert replies[0] == BlockReplies(blocks)[0];
    if blocks != [] {
      assert BlockReplies(blocks)[1..] == BlockReplies(blocks[1..]);
      assert BlockReplies(blocks[1..]) <= replies[1..];
      LeadingOf(blocks[1..], replies[1..]);
    }
  }

  /** `sync_from_peer` against an honest server that does not change meanwhile. */
  ghost function SyncFrom(r: Rules, a: Peer, server: Peer, disk: Disk): (Peer, bool)
    requires WellFormed(r, a.view.tree)
  {
    var locator := Locator(r, a.view.chain, a.maxLocator);
    var answer := ServeHeaders(r, server, locator, a.maxBlocks);
    var replies := ServeBlocks(r, server, locator, if answer.Some? then |answer.value| else 0);
    var (view, ok) := SyncOutcome(r, a.view, a.view, locator, a.maxBlocks, answer, replies, disk);
    (a.(view := view), ok)
  }

  // ---------------------------------------------------------------- two trees side by side

  /** Blocks known to both trees are known with the same node. */
  ghost predicate TreesAgree(t: Tree, u: Tree) {
    forall h :: h in t.nodes && h in u.nodes ==> t.nodes[h] == u.nodes[h]
  }

  lemma NoCollisionTreesAgree(r: Rules, t: Tree, u: Tree)
    requires NodesOk(r, t) && NodesOk(r, u) && !TreesCollide(r, t, u)
    ensures TreesAgree(t, u)
  {
    hide Validate, NodesOk, TreesCollide;
    forall h | h in t.nodes && h in u.nodes
      ensures t.nodes[h] == u.nodes[h]
    {
      SameHashSameNode(r, t, u, h);
    }
  }

  /** Both trees in one. Its best tip plays no role. */
  function Merged(t: Tree, u: Tree): Tree {
    Tree(t.nodes + u.nodes, None)
  }

  lemma MergedHolds(r: Rules, t: Tree, u: Tree)
    requires NodesOk(r, t) && NodesOk(r, u) && TreesAgree(t, u)
    ensures Grows(t, Merged(t, u)) && Grows(u, Merged(t, u))
    ensures NodesOk(r, Merged(t, u))
  {
    hide Validate, NodeOk;
    var m := Merged(t, u);
    forall h | h in m.nodes
      ensures NodeOk(r, m, h)
    {
      if h in u.nodes {
        assert NodeOk(r, u, h);
        NodeOkStable(r, u, m, h);
      } else {
        assert NodeOk(r, t, h);
        NodeOkStable(r, t, m, h);
      }
    }
  }

  /** Each block of a best chain is known, with its whole path below it. */
  lemma ChainBlockKnown(r: Rules, v: NodeView, i: nat)
    requires ViewIsBestBranch(r, v) && i < |v.chain|
    ensures BlockHash(r, v.chain[i]) in v.tree.nodes
    ensures v.tree.nodes[BlockHash(r, v.chain[i])].block == v.chain[i]
    ensures v.tree.nodes[BlockHash(r, v.chain[i])].nextHeight == i + 1
    ensures PathTo(v.tree, BlockHash(r, v.chain[i])) == v.chain[..i + 1]
    ensures NodeOk(r, v.tree, BlockHash(r, v.chain[i]))
  {
    hide Validate, IsBetterTip;
    PathPrefix(r, v.tree, v.tree.bestTip.value, i);
    PathIsValidChain(r, v.tree, BlockHash(r, v.chain[i]));
    assert NodeOk(r, v.tree, BlockHash(r, v.chain[i]));
  }

  /** Every block of the chain is known under its hash. */
  ghost predicate ChainKnown(r: Rules, v: NodeView) {
    forall i :: 0 <= i < |v.chain| ==>
      && BlockHash(r, v.chain[i]) in v.tree.nodes
      && v.tree.nodes[BlockHash(r, v.chain[i])].block == v.chain[i]
  }

  lemma ViewChainKnown(r: Rules, v: NodeView)
    requires ViewIsBestBranch(r, v)
    ensures ChainKnown(r, v)
  {
    hide ViewIsBestBranch, PathTo, NodeOk;
    forall i | 0 <= i < |v.chain|
      ensures BlockHash(r, v.chain[i]) in v.tree.nodes && v.tree.nodes[BlockHash(r, v.chain[i])].block == v.chain[i]
    {
      ChainBlockKnown(r, v, i);
    }
  }

  lemma KnownChainsAgree(r: Rules, v: NodeView, w: NodeView)
    requires ChainKnown(r, v) && ChainKnown(r, w) && TreesAgree(v.tree, w.tree)
    ensures Sync.Agree(r, v.chain, w.chain)
  {
  }

  lemma KnownChainNoZero(r: Rules, v: NodeView)
    requires ChainKnown(r, v) && ZeroFree(v.tree)
    ensures NoZeroHash(r, v.chain)
  {
  }

  /** The chains of two agreeing, zero-free views satisfy what the locator results ask for. */
  lemma ViewsAgree(r: Rules, v: NodeView, w: NodeView)
    requires ViewIsBestBranch(r, v) && ViewIsBestBranch(r, w)
    requires TreesAgree(v.tree, w.tree) && ZeroFree(v.tree) && ZeroFree(w.tree)
    ensures ValidChain(r, v.chain) && ValidChain(r, w.chain)
    ensures Sync.Agree(r, v.chain, w.chain) && Sync.Agree(r, v.chain, v.chain)
    ensures NoZeroHash(r, v.chain) && NoZeroHash(r, w.chain)
  {
    hide Validate, IsBetterTip, WellFormed, ValidChain, TreesAgree, ZeroFree, Sync.Agree, NoZeroHash, ChainKnown;
    BestChainFacts(r, v.tree);
    BestChainFacts(r, w.tree);
    ViewChainKnown(r, v);
    ViewChainKnown(r, w);
    KnownChainsAgree(r, v, w);
    TreeAgreesWithItself(v.tree);
    KnownChainsAgree(r, v, v);
    KnownChainNoZero(r, v);
    KnownChainNoZero(r, w);
  }

  lemma TreeAgreesWithItself(t: Tree)
    ensures TreesAgree(t, t)
  {
  }

  // ---------------------------------------------------------------- inserting a part of the server's chain

  /** The blocks of `chain[from..until]` are known. */
  ghost predicate KnowsPart(r: Rules, t: Tree, chain: seq<Block>, from: nat, until: nat)
    requires from <= until <= |chain|
  {
    forall i :: from <= i < until ==> BlockHash(r, chain[i]) in t.nodes
  }

  /** Nothing is known but `t` and the blocks of `chain[from..until]`. */
  ghost predicate OnlyAdds(r: Rules, t: Tree, u: Tree, chain: seq<Block>, from: nat, until: nat)
    requires from <= until <= |chain|
  {
    forall h :: h in u.nodes && h !in t.nodes ==> exists i :: from <= i < until && BlockHash(r, chain[i]) == h
  }

  /** A part of the server's best chain that starts at a known block is accepted block by block. */
  lemma {:induction false} InsertPart(r: Rules, t: Tree, w: NodeView, from: nat, until: nat)
    requires WellFormed(r, t) && ViewIsBestBranch(r, w) && TreesAgree(t, w.tree)
    requires from <= until <= |w.chain|
    requires from > 0 ==> BlockHash(r, w.chain[from - 1]) in t.nodes
    ensures var part := w.chain[from..until];
            && AllAccepted(r, t, part)
            && WellFormed(r, InsertAll(r, t, part))
            && Grows(t, InsertAll(r, t, part))
            && Grows(InsertAll(r, t, part), Merged(t, w.tree))
            && KnowsPart(r, InsertAll(r, t, part), w.chain, from, until)
            && OnlyAdds(r, t, InsertAll(r, t, part), w.chain, from, until)
    decreases until
  {
    hide Validate, IsBetterTip, NodesOk, WellFormed, Insert, InsertAll, AllAccepted, ViewIsBestBranch, TreesAgree, Merged;
    ViewNodesOk(r, w);
    NodesOfWellFormed(r, t);
    MergedHolds(r, t, w.tree);
    if from < until {
      InsertPart(r, t, w, from, until - 1);
      var rest, b := w.chain[from..until - 1], w.chain[until - 1];
      assert w.chain[from..until] == rest + [b];
      var u := InsertAll(r, t, rest);
      NextPartBlock(r, t, u, w, from, until - 1);
      InsertAllAppend(r, t, rest, b);
      AllAcceptedAppend(r, t, rest, b);
      InsertKeepsWellFormed(r, u, b);
      InsertGrows(r, u, b);
    } else {
      assert w.chain[from..until] == [];
      InsertNothing(r, t);
    }
  }

  lemma InsertNothing(r: Rules, t: Tree)
    ensures InsertAll(r, t, []) == t && AllAccepted(r, t, [])
  {
  }

  lemma ViewNodesOk(r: Rules, v: NodeView)
    requires ViewIsBestBranch(r, v)
    ensures NodesOk(r, v.tree) && WellFormed(r, v.tree)
  {
  }

  lemma NodesOfWellFormed(r: Rules, t: Tree)
    requires WellFormed(r, t)
    ensures NodesOk(r, t)
  {
    hide NodesOk;
  }

  lemma NextPartBlock(r: Rules, t: Tree, u: Tree, w: NodeView, from: nat, i: nat)
    requires NodesOk(r, Merged(t, w.tree)) && ViewIsBestBranch(r, w) && TreesAgree(t, w.tree)
    requires Grows(t, u) && Grows(u, Merged(t, w.tree))
    requires from <= i < |w.chain|
    requires from > 0 ==> BlockHash(r, w.chain[from - 1]) in t.nodes
    requires KnowsPart(r, u, w.chain, from, i)
    ensures Insert(r, u, w.chain[i]).1.Ok?
    ensures Grows(Insert(r, u, w.chain[i]).0, Merged(t, w.tree))
  {
    hide Validate, IsBetterTip, NodeOk, WellFormed, Insert, Merged, PathTo, ValidChain, TreesAgree;
    var m, b := Merged(t, w.tree), w.chain[i];
    ViewNodesOk(r, w);
    BestChainFacts(r, w.tree);
    ValidChainLinks(r, w.chain, i);
    if i > 0 {
      assert BlockHash(r, w.chain[i - 1]) in u.nodes;
    }
    MergedKnows(r, t, w, i);
    RebuildStep(r, m, u, b);
  }

  lemma MergedKnows(r: Rules, t: Tree, w: NodeView, i: nat)
    requires NodesOk(r, Merged(t, w.tree)) && ViewIsBestBranch(r, w) && i < |w.chain|
    ensures var h := BlockHash(r, w.chain[i]);
            && h in Merged(t, w.tree).nodes
            && NodeOk(r, Merged(t, w.tree), h)
            && Merged(t, w.tree).nodes[h].block == w.chain[i]
  {
    hide Validate, NodeOk, ViewIsBestBranch, PathTo;
    ChainBlockKnown(r, w, i);
  }

  // ---------------------------------------------------------------- what one round does

  /** The length of the locator of a chain of `n` blocks. */
  function LocatorSize(n: nat, maxHashes: nat): (size: nat)
    ensures size <= maxHashes
  {
    if n >= maxHashes then maxHashes else if n == 0 then 0 else n + 1
  }

  lemma LocatorLength(r: Rules, chain: seq<Block>, maxHashes: nat)
    ensures |Locator(r, chain, maxHashes)| == LocatorSize(|chain|, maxHashes)
  {
  }

  /** The server takes a locator as long as the requester sends when it has `n` blocks. */
  predicate LocatorFits(a: Peer, server: Peer, n: nat) {
    LocatorSize(n, a.maxLocator) <= server.maxLocator
  }

  /** The round can go through: the server reads the whole locator, and the fork point is within it. */
  predicate CanSync(a: Peer, server: Peer) {
    LocatorFits(a, server, |a.view.chain|) && InWindow(a.view.chain, server.view.chain, a.maxLocator)
  }

  /** The two nodes are in reachable, zero-free states and exhibit no hash collision. */
  ghost predicate Compatible(r: Rules, v: NodeView, w: NodeView) {
    && ViewIsBestBranch(r, v) && ViewIsBestBranch(r, w)
    && ZeroFree(v.tree) && ZeroFree(w.tree)
    && TreesAgree(v.tree, w.tree)
  }

  /** Where the part of the server's chain that a round transfers ends. */
  function Reach(a: Peer, server: Peer): (until: nat)
    ensures ForkPoint(a.view.chain, server.view.chain) <= until <= |server.view.chain|
  {
    Min(ForkPoint(a.view.chain, server.view.chain) + Min(a.maxBlocks, server.maxBlocks), |server.view.chain|)
  }

  function Transferred(a: Peer, server: Peer): seq<Block> {
    server.view.chain[ForkPoint(a.view.chain, server.view.chain)..Reach(a, server)]
  }

  lemma {:induction false} InsertKnown(r: Rules, t: Tree, blocks: seq<Block>)
    requires forall i :: 0 <= i < |blocks| ==> BlockHash(r, blocks[i]) in t.nodes
    ensures InsertAll(r, t, blocks) == t
    decreases |blocks|
  {
    hide Validate;
    if blocks != [] {
      InsertKnown(r, t, blocks[1..]);
    }
  }

  lemma SliceIsTransferred(a: Peer, server: Peer)
    ensures var n := ForkPoint(a.view.chain, server.view.chain);
            && Slice(server.view.chain, n, Min(a.maxBlocks, server.maxBlocks)) == Transferred(a, server)
            && Slice(server.view.chain, n, |Transferred(a, server)|) == Transferred(a, server)
            && |Transferred(a, server)| <= Min(a.maxBlocks, server.maxBlocks)
  {
  }

  /** What the server sends first: the headers of its chain after the fork point. */
  lemma ServerSendsHeaders(r: Rules, a: Peer, server: Peer)
    requires Compatible(r, a.view, server.view) && CanSync(a, server)
    ensures var locator, part := Locator(r, a.view.chain, a.maxLocator), Transferred(a, server);
            && ServeHeaders(r, server, locator, a.maxBlocks) == Some(Headers(part))
            && HeadersAccepted(r, a.view.chain, locator, Headers(part))
  {
    hide Validate, ViewIsBestBranch, TreesAgree, ZeroFree, HeadersAccepted, Locator, StartAfter, InWindow, Slice,
         Transferred, Headers;
    ViewsAgree(r, a.view, server.view);
    LocatorLength(r, a.view.chain, a.maxLocator);
    SliceIsTransferred(a, server);
    ServerFindsForkPoint(r, a.view.chain, server.view.chain, a.maxLocator, Min(a.maxBlocks, server.maxBlocks));
    HonestAnswerAccepted(r, a.view.chain, server.view.chain, a.maxLocator, Min(a.maxBlocks, server.maxBlocks));
  }

  /** What it sends next: the same part as blocks, which match the screened hashes. */
  lemma ServerSendsBlocks(r: Rules, a: Peer, server: Peer)
    requires Compatible(r, a.view, server.view) && CanSync(a, server)
    ensures var locator, part := Locator(r, a.view.chain, a.maxLocator), Transferred(a, server);
            Fetched(r, HeaderHashes(r, Headers(part)), ServeBlocks(r, server, locator, |part|)) == Some(part)
  {
    hide Validate, ViewIsBestBranch, TreesAgree, ZeroFree, Locator, StartAfter, InWindow, Slice, Transferred;
    var part := Transferred(a, server);
    ViewsAgree(r, a.view, server.view);
    LocatorLength(r, a.view.chain, a.maxLocator);
    SliceIsTransferred(a, server);
    ServerFindsForkPoint(r, a.view.chain, server.view.chain, a.maxLocator, |part|);
    RepliesCarryBlocks(part);
  }

  /**
   * One round succeeds and inserts exactly the server's blocks after the fork point, up to the limits, leaving the
   * requester on the best branch of the larger tree.
   */
  lemma RoundInsertsSuffix(r: Rules, a: Peer, server: Peer, disk: Disk)
    requires Compatible(r, a.view, server.view) && CanSync(a, server)
    ensures SyncFrom(r, a, server, disk).1
    ensures SyncFrom(r, a, server, disk).0 == a.(view := SyncFrom(r, a, server, disk).0.view)
    ensures SyncFrom(r, a, server, disk).0.view.tree == InsertAll(r, a.view.tree, Transferred(a, server))
    ensures ViewIsBestBranch(r, SyncFrom(r, a, server, disk).0.view)
    ensures ZeroFree(SyncFrom(r, a, server, disk).0.view.tree)
  {
    hide Validate, ViewIsBestBranch, TreesAgree, HeadersAccepted, Locator, InWindow, Fetched, ServeHeaders, ServeBlocks,
         InsertAll, AllAccepted, Insert, Committed, WellFormed, KnowsPart, OnlyAdds, Merged;
    var v, w, part := a.view, server.view, Transferred(a, server);
    var n := ForkPoint(v.chain, w.chain);
    ServerSendsHeaders(r, a, server);
    ServerSendsBlocks(r, a, server);
    SliceIsTransferred(a, server);
    ForkPointKnown(r, v, w);
    InsertPart(r, v.tree, w, n, Reach(a, server));
    var u := InsertAll(r, v.tree, part);
    PartIsZeroFree(r, v, w, u);
    CommittedBatch(r, v, part, disk);
    CommittedKeepsView(r, v, part, disk);
    var expected := HeaderHashes(r, Headers(part));
    if AllKnown(v.tree, expected) {
      forall i | 0 <= i < |part|
        ensures BlockHash(r, part[i]) in v.tree.nodes
      {
        assert expected[i] == BlockHash(r, part[i]);
      }
      InsertKnown(r, v.tree, part);
    }
  }

  lemma ForkPointKnown(r: Rules, v: NodeView, w: NodeView)
    requires Compatible(r, v, w)
    ensures WellFormed(r, v.tree)
    ensures ForkPoint(v.chain, w.chain) > 0 ==>
              BlockHash(r, w.chain[ForkPoint(v.chain, w.chain) - 1]) in v.tree.nodes
  {
    hide Validate, IsBetterTip;
    var n := ForkPoint(v.chain, w.chain);
    if n > 0 {
      ChainBlockKnown(r, v, n - 1);
      assert v.chain[n - 1] == v.chain[..n][n - 1] == w.chain[..n][n - 1] == w.chain[n - 1];
    }
  }

  lemma PartIsZeroFree(r: Rules, v: NodeView, w: NodeView, u: Tree)
    requires ZeroFree(v.tree) && ZeroFree(w.tree)
    requires Grows(u, Merged(v.tree, w.tree))
    ensures ZeroFree(u)
  {
  }

  // ---------------------------------------------------------------- the better tip wins

  /** The better of the best tips of two trees. */
  function BetterTip(t: Tree, u: Tree): Option<Digest> {
    if u.bestTip == None || u.bestTip.value !in u.nodes then t.bestTip
    else if t.bestTip == None || t.bestTip.value !in t.nodes then u.bestTip
    else if IsBetterTip(u.nodes[u.bestTip.value], t.nodes[t.bestTip.value]) then u.bestTip
    else t.bestTip
  }

  /** A tree between `t` and the union of `t` and `w` that knows the best tip of `w` has the better tip of the two. */
  lemma UnionBestTip(r: Rules, t: Tree, w: Tree, u: Tree)
    requires WellFormed(r, t) && WellFormed(r, w) && WellFormed(r, u) && TreesAgree(t, w)
    requires Grows(t, u) && Grows(u, Merged(t, w))
    requires w.bestTip.Some? ==> w.bestTip.value in u.nodes
    ensures u.bestTip == BetterTip(t, w)
  {
    hide Validate, IsBetterTip, NodeOk;
    KeysAreHashes(r, u);
    if u.bestTip.Some? {
      var x := u.bestTip.value;
      if x in t.nodes && x != t.bestTip.value {
        BetterTotal(u.nodes[x], u.nodes[t.bestTip.value]);
      }
      if x in w.nodes && x != w.bestTip.value {
        BetterTotal(u.nodes[x], u.nodes[w.bestTip.value]);
      }
      if t.bestTip.Some? && w.bestTip.Some? && t.bestTip != w.bestTip {
        BetterTotal(u.nodes[t.bestTip.value], u.nodes[w.bestTip.value]);
      } else if t.bestTip.Some? && w.bestTip.Some? {
        NotBetterThanSelf(t.nodes[t.bestTip.value]);
      }
    }
  }

  /** The path to a block of the requester's tree is the same after the round. */
  lemma PathInUnion(r: Rules, t: Tree, w: Tree, u: Tree, h: Digest)
    requires WellFormed(r, t) && WellFormed(r, w) && WellFormed(r, u) && TreesAgree(t, w)
    requires Linked(t) && Linked(w) && Linked(u)
    requires Grows(t, u) && Grows(u, Merged(t, w)) && h in u.nodes
    ensures h in t.nodes ==> PathTo(u, h) == PathTo(t, h)
    ensures h in w.nodes ==> PathTo(u, h) == PathTo(w, h)
  {
    hide Validate, IsBetterTip, NodeOk;
    MergedHolds(r, t, w);
    NodesAreLinked(r, Merged(t, w));
    PathStable(u, Merged(t, w), h);
    if h in t.nodes {
      PathStable(t, Merged(t, w), h);
    }
    if h in w.nodes {
      PathStable(w, Merged(t, w), h);
    }
  }

  /** The limits let the whole of the server's suffix through. */
  predicate SuffixFits(a: Peer, server: Peer) {
    |server.view.chain| - ForkPoint(a.view.chain, server.view.chain) <= Min(a.maxBlocks, server.maxBlocks)
  }

  lemma ServerTipArrives(r: Rules, a: Peer, server: Peer)
    requires Compatible(r, a.view, server.view) && SuffixFits(a, server)
    ensures var u := InsertAll(r, a.view.tree, Transferred(a, server));
            && WellFormed(r, u)
            && Grows(a.view.tree, u) && Grows(u, Merged(a.view.tree, server.view.tree))
            && (server.view.tree.bestTip.Some? ==> server.view.tree.bestTip.value in u.nodes)
  {
    hide Validate, IsBetterTip, NodeOk, Insert, InsertAll, AllAccepted, WellFormed, TreesAgree, Merged;
    var v, w := a.view, server.view;
    var n, last := ForkPoint(v.chain, w.chain), |w.chain|;
    ForkPointKnown(r, v, w);
    InsertPart(r, v.tree, w, n, Reach(a, server));
    HeadIsBestTip(r, w);
    if w.chain != [] && n == last {
      assert BlockHash(r, w.chain[last - 1]) in v.tree.nodes;
    }
  }

  /**
   * One round of sync makes the requester's best tip the better of the two old best tips, whatever side branches either
   * node knows, and its active chain the chain of the node that had it.
   */
  lemma RoundTakesBetterTip(r: Rules, a: Peer, server: Peer, disk: Disk)
    requires Compatible(r, a.view, server.view) && CanSync(a, server) && SuffixFits(a, server)
    ensures var w := SyncFrom(r, a, server, disk).0.view;
            && SyncFrom(r, a, server, disk).1
            && w.tree.bestTip == BetterTip(a.view.tree, server.view.tree)
            && w.chain == (if w.tree.bestTip == a.view.tree.bestTip then a.view.chain else server.view.chain)
            && ViewIsBestBranch(r, w)
  {
    hide Validate, IsBetterTip, NodeOk, Insert, InsertAll, Merged, SyncFrom, Transferred;
    RoundInsertsSuffix(r, a, server, disk);
    ServerTipArrives(r, a, server);
    var t, w, u := a.view.tree, server.view.tree, InsertAll(r, a.view.tree, Transferred(a, server));
    UnionBestTip(r, t, w, u);
    if u.bestTip.Some? {
      PathInUnion(r, t, w, u, u.bestTip.value);
    }
  }
}

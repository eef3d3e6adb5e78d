/**
 * One pass of `sync_once` over a list of peers. The locator is taken once, before the first peer, and used for all of
 * them, while the chain may change in between.
 */
module SyncPass {
  import opened Prelude
  import opened Domain
  import opened Validation
  import opened ForkTree
  import opened Chain
  import opened ForkOrder
  import opened Node
  import opened Sync
  import opened SyncProtocol
  import opened SyncProgress

  /** `sync_from_peer` with a given locator, against an honest server that does not change meanwhile. */
  ghost function SyncWith(r: Rules, a: Peer, locator: seq<Digest>, server: Peer, disk: Disk): (Peer, bool)
    requires WellFormed(r, a.view.tree)
  {
    var answer := ServeHeaders(r, server, locator, a.maxBlocks);
    var replies := ServeBlocks(r, server, locator, if answer.Some? then |answer.value| else 0);
    var (view, ok) := SyncOutcome(r, a.view, a.view, locator, a.maxBlocks, answer, replies, disk);
    (a.(view := view), ok)
  }

  lemma SyncWithKeepsTree(r: Rules, a: Peer, locator: seq<Digest>, server: Peer, disk: Disk)
    requires WellFormed(r, a.view.tree)
    ensures WellFormed(r, SyncWith(r, a, locator, server, disk).0.view.tree)
  {
    var answer := ServeHeaders(r, server, locator, a.maxBlocks);
    var replies := ServeBlocks(r, server, locator, if answer.Some? then |answer.value| else 0);
    SyncIsAtomic(r, a.view, a.view, locator, a.maxBlocks, answer, replies, disk);
  }

  /** The pass: one peer after another, whatever each attempt returns. */
  ghost function Pass(r: Rules, a: Peer, locator: seq<Digest>, servers: seq<Peer>, disk: Disk): Peer
    requires WellFormed(r, a.view.tree)
    decreases |servers|
  {
    if servers == [] then a
    else
      SyncWithKeepsTree(r, a, locator, servers[0], disk);
      Pass(r, SyncWith(r, a, locator, servers[0], disk).0, locator, servers[1..], disk)
  }

  // ---------------------------------------------------------------- one peer

  /** The chain the locator was taken from is known to the tree. */
  ghost predicate Remembers(r: Rules, v: NodeView, old': seq<Block>) {
    ValidChain(r, old') && ChainKnown(r, v.(chain := old'))
  }

  /** The server answers with its whole suffix after the fork point with the chain the locator was taken from. */
  predicate Reachable(old': seq<Block>, a: Peer, server: Peer) {
    && LocatorSize(|old'|, a.maxLocator) <= server.maxLocator
    && InWindow(old', server.view.chain, a.maxLocator)
    && |server.view.chain| - ForkPoint(old', server.view.chain) <= Min(a.maxBlocks, server.maxBlocks)
  }

  /**
   * The server's answer still attaches to the chain as it is now: there is nothing to attach, the last common block with
   * the old chain is still on the chain, or the answer starts at the beginning and the locator could say so.
   */
  predicate StillAttached(old': seq<Block>, now: seq<Block>, server: Peer) {
    var theirs, n := server.view.chain, ForkPoint(old', server.view.chain);
    || n == |theirs|
    || (n > 0 && n <= ForkPoint(theirs, now))
    || (n == 0 && (now == [] || old' != []))
  }

  function Suffix(old': seq<Block>, server: Peer): seq<Block> {
    server.view.chain[ForkPoint(old', server.view.chain)..]
  }

  /** What the old chain and the chains of the two nodes have to do with each other. */
  lemma OldChainAgrees(r: Rules, a: Peer, server: Peer, old': seq<Block>)
    requires Compatible(r, a.view, server.view) && Remembers(r, a.view, old')
    ensures ValidChain(r, a.view.chain) && ValidChain(r, server.view.chain) && ValidChain(r, old')
    ensures Sync.Agree(r, old', server.view.chain) && Sync.Agree(r, server.view.chain, a.view.chain)
    ensures NoZeroHash(r, old') && NoZeroHash(r, server.view.chain) && NoZeroHash(r, a.view.chain)
  {
    hide Validate, IsBetterTip, WellFormed, ValidChain, ZeroFree, Sync.Agree, NoZeroHash, ChainKnown, ViewIsBestBranch;
    var v := a.view.(chain := old');
    ViewsAgree(r, a.view, server.view);
    ViewsAgree(r, server.view, a.view);
    ViewChainKnown(r, server.view);
    KnownChainsAgree(r, v, server.view);
    KnownChainNoZero(r, v);
  }

  /** Where the headers of the suffix attach now. */
  lemma SuffixAttaches(r: Rules, a: Peer, server: Peer, old': seq<Block>)
    requires Compatible(r, a.view, server.view) && Remembers(r, a.view, old') && Reachable(old', a, server)
    requires Suffix(old', server) != []
    ensures var n := ForkPoint(old', server.view.chain);
            AttachHeight(r, a.view.chain, Locator(r, old', a.maxLocator), server.view.chain[n].header.previousBlock)
            == if StillAttached(old', a.view.chain, server) then Some(n) else None
  {
    hide Validate, IsBetterTip, WellFormed, ValidChain, ZeroFree, Sync.Agree, NoZeroHash, ChainKnown, ViewIsBestBranch,
         Remembers, Compatible;
    OldChainAgrees(r, a, server, old');
    var theirs, now := server.view.chain, a.view.chain;
    var n := ForkPoint(old', theirs);
    ValidChainLinks(r, theirs, n);
    if n > 0 {
      assert old'[n - 1] == old'[..n][n - 1] == theirs[..n][n - 1] == theirs[n - 1];
      LocatorHolds(r, old', a.maxLocator, n - 1);
      PositionInOther(r, theirs, now, n - 1);
      NotZero(r, theirs, n - 1);
    } else if old' != [] {
      var locator := Locator(r, old', a.maxLocator);
      assert locator[|old'|] == ZERO;
    }
  }

  lemma NotZero(r: Rules, chain: seq<Block>, i: nat)
    requires NoZeroHash(r, chain) && i < |chain|
    ensures BlockHash(r, chain[i]) != ZERO
  {
  }

  /** The server's answer, and whether it is accepted. */
  lemma AnswerNow(r: Rules, a: Peer, server: Peer, old': seq<Block>)
    requires Compatible(r, a.view, server.view) && Remembers(r, a.view, old') && Reachable(old', a, server)
    ensures var locator, part := Locator(r, old', a.maxLocator), Suffix(old', server);
            && ServeHeaders(r, server, locator, a.maxBlocks) == Some(Headers(part))
            && |part| <= a.maxBlocks
            && Fetched(r, HeaderHashes(r, Headers(part)), ServeBlocks(r, server, locator, |part|)) == Some(part)
            && (HeadersAccepted(r, a.view.chain, locator, Headers(part)) <==> StillAttached(old', a.view.chain, server))
  {
    hide Validate, IsBetterTip, WellFormed, ValidChain, ZeroFree, Sync.Agree, NoZeroHash, ViewIsBestBranch, Remembers,
         Compatible, HeaderFollows, Locator, StartAfter, StillAttached, AttachHeight;
    OldChainAgrees(r, a, server, old');
    LocatorLength(r, old', a.maxLocator);
    var theirs, n, part := server.view.chain, ForkPoint(old', server.view.chain), Suffix(old', server);
    ServerFindsForkPoint(r, old', theirs, a.maxLocator, Min(a.maxBlocks, server.maxBlocks));
    ServerFindsForkPoint(r, old', theirs, a.maxLocator, Min(|part|, server.maxBlocks));
    assert Slice(theirs, n, Min(a.maxBlocks, server.maxBlocks)) == part;
    assert Slice(theirs, n, Min(|part|, server.maxBlocks)) == part;
    RepliesCarryBlocks(part);
    if part != [] {
      SuffixAttaches(r, a, server, old');
      forall i: nat | i < |part|
        ensures HeaderFollows(r, Headers(part), n, i)
      {
        SliceFollows(r, theirs, n, Min(a.maxBlocks, server.maxBlocks), i);
      }
    } else {
      NothingToAttach(old', a.view.chain, server);
    }
  }

  lemma NothingToAttach(old': seq<Block>, now: seq<Block>, server: Peer)
    requires Suffix(old', server) == []
    ensures StillAttached(old', now, server)
  {
  }

  /**
   * One peer of a pass: the attempt succeeds if and only if the answer still attaches. Then the suffix has been inserted,
   * and the best tip is the better of the two; otherwise nothing has changed.
   */
  lemma PassStep(r: Rules, a: Peer, server: Peer, old': seq<Block>, disk: Disk)
    requires Compatible(r, a.view, server.view) && Remembers(r, a.view, old') && Reachable(old', a, server)
    ensures WellFormed(r, a.view.tree)
    ensures var (b, ok) := SyncWith(r, a, Locator(r, old', a.maxLocator), server, disk);
            && (ok <==> StillAttached(old', a.view.chain, server))
            && b == a.(view := b.view)
            && (!ok ==> b == a)
            && (ok ==>
                  && b.view.tree.bestTip == BetterTip(a.view.tree, server.view.tree)
                  && (server.view.tree.bestTip.Some? ==> server.view.tree.bestTip.value in b.view.tree.nodes))
            && Grows(a.view.tree, b.view.tree) && Grows(b.view.tree, Merged(a.view.tree, server.view.tree))
            && ViewIsBestBranch(r, b.view) && ZeroFree(b.view.tree)
  {
    hide Validate, IsBetterTip, WellFormed, ValidChain, ViewIsBestBranch, Remembers, HeadersAccepted, Locator, Fetched,
         ServeHeaders, ServeBlocks, StillAttached, Insert, InsertAll, AllAccepted, Committed, KnowsPart, OnlyAdds, Merged,
         TreesAgree;
    var v, w, part := a.view, server.view, Suffix(old', server);
    var n, last := ForkPoint(old', w.chain), |w.chain|;
    AnswerNow(r, a, server, old');
    ViewOfCompatible(r, v, w);
    ServerIsWellFormed(r, v, w);
    MergedIsAbove(r, v.tree, w.tree);
    if StillAttached(old', v.chain, server) {
      OldForkKnown(r, v, w, old');
      assert w.chain[n..last] == part;
      InsertPart(r, v.tree, w, n, last);
      var u := InsertAll(r, v.tree, part);
      PartIsZeroFree(r, v, w, u);
      CommittedBatch(r, v, part, disk);
      CommittedKeepsView(r, v, part, disk);
      KnownSuffix(r, v.tree, part);
      TipOfSuffix(r, v, w, old', u);
      UnionBestTip(r, v.tree, w.tree, u);
    }
  }

  lemma ServerIsWellFormed(r: Rules, v: NodeView, w: NodeView)
    requires Compatible(r, v, w)
    ensures WellFormed(r, w.tree)
  {
  }

  lemma MergedIsAbove(r: Rules, t: Tree, u: Tree)
    requires WellFormed(r, t) && WellFormed(r, u) && TreesAgree(t, u)
    ensures Grows(t, Merged(t, u))
  {
    hide NodesOk;
    MergedHolds(r, t, u);
  }

  lemma KnownSuffix(r: Rules, t: Tree, part: seq<Block>)
    ensures AllKnown(t, HeaderHashes(r, Headers(part))) ==> InsertAll(r, t, part) == t
  {
    hide InsertAll;
    if AllKnown(t, HeaderHashes(r, Headers(part))) {
      forall i | 0 <= i < |part|
        ensures BlockHash(r, part[i]) in t.nodes
      {
        assert HeaderHashes(r, Headers(part))[i] == BlockHash(r, part[i]);
      }
      InsertKnown(r, t, part);
    }
  }

  lemma OldForkKnown(r: Rules, v: NodeView, w: NodeView, old': seq<Block>)
    requires Remembers(r, v, old')
    ensures var n := ForkPoint(old', w.chain);
            n > 0 ==> BlockHash(r, w.chain[n - 1]) in v.tree.nodes
  {
    hide ValidChain;
    var n := ForkPoint(old', w.chain);
    if n > 0 {
      assert old'[n - 1] == old'[..n][n - 1] == w.chain[..n][n - 1] == w.chain[n - 1];
      assert v.(chain := old').chain[n - 1] == old'[n - 1];
    }
  }

  lemma TipOfSuffix(r: Rules, v: NodeView, w: NodeView, old': seq<Block>, u: Tree)
    requires Compatible(r, v, w) && Remembers(r, v, old') && Grows(v.tree, u)
    requires KnowsPart(r, u, w.chain, ForkPoint(old', w.chain), |w.chain|)
    ensures w.tree.bestTip.Some? ==> w.tree.bestTip.value in u.nodes
  {
    hide Validate, IsBetterTip, WellFormed, ValidChain, TreesAgree, Remembers;
    HeadIsBestTip(r, w);
    OldForkKnown(r, v, w, old');
    if w.chain != [] && ForkPoint(old', w.chain) == |w.chain| {
      assert BlockHash(r, w.chain[|w.chain| - 1]) in v.tree.nodes;
    }
  }

  // ---------------------------------------------------------------- the whole pass

  /** All nodes are in zero-free reachable states, and common blocks agree, pairwise. */
  ghost predicate AllCompatible(r: Rules, a: Peer, servers: seq<Peer>) {
    && (forall i :: 0 <= i < |servers| ==> Compatible(r, a.view, servers[i].view))
    && (forall i, j :: 0 <= i < j < |servers| ==> TreesAgree(servers[i].view.tree, servers[j].view.tree))
  }

  ghost predicate AllReachable(old': seq<Block>, a: Peer, servers: seq<Peer>) {
    forall i :: 0 <= i < |servers| ==> Reachable(old', a, servers[i])
  }

  lemma AgreeAfterStep(r: Rules, t: Tree, s: Tree, u: Tree, w: Tree)
    requires TreesAgree(t, w) && TreesAgree(s, w)
    requires Grows(u, Merged(t, s))
    ensures TreesAgree(u, w)
  {
  }

  lemma RemembersGrows(r: Rules, v: NodeView, w: NodeView, old': seq<Block>)
    requires Remembers(r, v, old') && Grows(v.tree, w.tree)
    ensures Remembers(r, w, old')
  {
    hide ValidChain;
    var x, y := v.(chain := old'), w.(chain := old');
    forall i | 0 <= i < |old'|
      ensures BlockHash(r, y.chain[i]) in y.tree.nodes && y.tree.nodes[BlockHash(r, y.chain[i])].block == y.chain[i]
    {
      assert BlockHash(r, x.chain[i]) in x.tree.nodes;
    }
  }

  /** After one peer the situation is the same for the others. */
  lemma StepKeepsPass(r: Rules, a: Peer, servers: seq<Peer>, old': seq<Block>, disk: Disk)
    requires servers != [] && AllCompatible(r, a, servers) && AllReachable(old', a, servers) && Remembers(r, a.view, old')
    ensures WellFormed(r, a.view.tree)
    ensures var b := SyncWith(r, a, Locator(r, old', a.maxLocator), servers[0], disk).0;
            && AllCompatible(r, b, servers[1..]) && AllReachable(old', b, servers[1..]) && Remembers(r, b.view, old')
            && Grows(a.view.tree, b.view.tree) && b == a.(view := b.view)
            && WellFormed(r, b.view.tree) && ViewIsBestBranch(r, b.view)
  {
    hide Validate, IsBetterTip, WellFormed, ViewIsBestBranch, Remembers, SyncWith, ZeroFree, TreesAgree, Merged, Reachable,
         StillAttached, BetterTip;
    assert Compatible(r, a.view, servers[0].view) && Reachable(old', a, servers[0]);
    PassStep(r, a, servers[0], old', disk);
    var b := SyncWith(r, a, Locator(r, old', a.maxLocator), servers[0], disk).0;
    SyncWithKeepsTree(r, a, Locator(r, old', a.maxLocator), servers[0], disk);
    RemembersGrows(r, a.view, b.view, old');
    forall i | 0 <= i < |servers[1..]|
      ensures Compatible(r, b.view, servers[1..][i].view)
      ensures Reachable(old', b, servers[1..][i])
    {
      assert Compatible(r, a.view, servers[i + 1].view) && Reachable(old', a, servers[i + 1]);
      assert TreesAgree(servers[0].view.tree, servers[i + 1].view.tree);
      AgreeAfterStep(r, a.view.tree, servers[0].view.tree, b.view.tree, servers[i + 1].view.tree);
      ReachableStable(old', a, b, servers[i + 1]);
    }
  }

  lemma ReachableStable(old': seq<Block>, a: Peer, b: Peer, server: Peer)
    requires Reachable(old', a, server) && b == a.(view := b.view)
    ensures Reachable(old', b, server)
  {
  }

  /** Which peers of the pass are heard: those whose answer still attaches when their turn comes. */
  ghost function Heard(r: Rules, a: Peer, old': seq<Block>, servers: seq<Peer>, disk: Disk): seq<Peer>
    requires WellFormed(r, a.view.tree)
    decreases |servers|
  {
    if servers == [] then []
    else
      var locator := Locator(r, old', a.maxLocator);
      SyncWithKeepsTree(r, a, locator, servers[0], disk);
      (if StillAttached(old', a.view.chain, servers[0]) then [servers[0]] else [])
      + Heard(r, SyncWith(r, a, locator, servers[0], disk).0, old', servers[1..], disk)
  }

  ghost predicate Knows(u: Tree, tip: Option<Digest>) {
    tip.Some? ==> tip.value in u.nodes
  }

  /** The best tip of `u` is the best of the tip of `t` and of the tips of the peers. */
  ghost predicate HasBestOf(u: Tree, t: Tree, peers: seq<Peer>) {
    && BestIsMaximal(u)
    && Knows(u, t.bestTip) && (forall i :: 0 <= i < |peers| ==> Knows(u, peers[i].view.tree.bestTip))
    && (u.bestTip == t.bestTip || exists i :: 0 <= i < |peers| && u.bestTip == peers[i].view.tree.bestTip)
  }

  lemma HeardOne(r: Rules, u: Tree, w: Tree, t: Tree, peers: seq<Peer>, server: Peer)
    requires HasBestOf(u, t, peers) && Grows(u, w) && WellFormed(r, w)
    requires Knows(w, server.view.tree.bestTip)
    requires w.bestTip == u.bestTip || w.bestTip == server.view.tree.bestTip
    ensures HasBestOf(w, t, peers + [server])
  {
    hide NodesOk, IsBetterTip;
    var all := peers + [server];
    forall i | 0 <= i < |all|
      ensures Knows(w, all[i].view.tree.bestTip)
    {
      assert i < |peers| ==> Knows(u, peers[i].view.tree.bestTip);
    }
    if w.bestTip == server.view.tree.bestTip {
      assert w.bestTip == all[|peers|].view.tree.bestTip;
    } else if u.bestTip != t.bestTip {
      var i :| 0 <= i < |peers| && u.bestTip == peers[i].view.tree.bestTip;
      assert w.bestTip == all[i].view.tree.bestTip;
    }
  }

  /**
   * One pass over any list of peers, with the locator taken once: the node ends on the best of its own tip and the tips of
   * the peers that are heard, on the best branch of its tree. A peer is heard if and only if its answer still attaches to
   * the chain when its turn comes.
   */
  lemma {:induction false} PassTakesBestHeard(
      r: Rules, a: Peer, start: Tree, old': seq<Block>, before: seq<Peer>, servers: seq<Peer>, disk: Disk)
    requires AllCompatible(r, a, servers) && AllReachable(old', a, servers) && Remembers(r, a.view, old')
    requires WellFormed(r, a.view.tree) && ViewIsBestBranch(r, a.view)
    requires HasBestOf(a.view.tree, start, before)
    ensures var b := Pass(r, a, Locator(r, old', a.maxLocator), servers, disk);
            && ViewIsBestBranch(r, b.view)
            && HasBestOf(b.view.tree, start, before + Heard(r, a, old', servers, disk))
    decreases |servers|
  {
    hide Validate, IsBetterTip, WellFormed, ViewIsBestBranch, Remembers, SyncWith, StillAttached, AllCompatible,
         AllReachable, HasBestOf;
    if servers == [] {
      assert before + [] == before;
    } else {
      var locator := Locator(r, old', a.maxLocator);
      StepKeepsPass(r, a, servers, old', disk);
      var b := SyncWith(r, a, locator, servers[0], disk).0;
      var heard := if StillAttached(old', a.view.chain, servers[0]) then [servers[0]] else [];
      BestAfterStep(r, a, start, old', before, servers, disk);
      PassTakesBestHeard(r, b, start, old', before + heard, servers[1..], disk);
      assert before + heard + Heard(r, b, old', servers[1..], disk) == before + Heard(r, a, old', servers, disk);
    }
  }

  lemma BestAfterStep(r: Rules, a: Peer, start: Tree, old': seq<Block>, before: seq<Peer>, servers: seq<Peer>, disk: Disk)
    requires servers != [] && AllCompatible(r, a, servers) && AllReachable(old', a, servers) && Remembers(r, a.view, old')
    requires WellFormed(r, a.view.tree)
    requires HasBestOf(a.view.tree, start, before)
    ensures var b := SyncWith(r, a, Locator(r, old', a.maxLocator), servers[0], disk).0;
            HasBestOf(b.view.tree, start,
                      before + if StillAttached(old', a.view.chain, servers[0]) then [servers[0]] else [])
  {
    hide Validate, IsBetterTip, WellFormed, ViewIsBestBranch, Remembers, SyncWith, StillAttached, Reachable, Merged,
         HasBestOf;
    assert Compatible(r, a.view, servers[0].view) && Reachable(old', a, servers[0]);
    PassStep(r, a, servers[0], old', disk);
    var b := SyncWith(r, a, Locator(r, old', a.maxLocator), servers[0], disk).0;
    SyncWithKeepsTree(r, a, Locator(r, old', a.maxLocator), servers[0], disk);
    if StillAttached(old', a.view.chain, servers[0]) {
      HeardOne(r, a.view.tree, b.view.tree, start, before, servers[0]);
    } else {
      assert before + [] == before;
    }
  }

  // ---------------------------------------------------------------- results

  /** Every node is on its best branch and knows no block that hashes to zero. */
  ghost predicate AllComparable(r: Rules, a: Peer, servers: seq<Peer>) {
    && ViewIsBestBranch(r, a.view) && ZeroFree(a.view.tree)
    && forall i :: 0 <= i < |servers| ==> ViewIsBestBranch(r, servers[i].view) && ZeroFree(servers[i].view.tree)
  }

  /** Two blocks, known to two different nodes, exhibit a hash collision. */
  ghost predicate SomeCollide(r: Rules, a: Peer, servers: seq<Peer>) {
    || (exists i :: 0 <= i < |servers| && TreesCollide(r, a.view.tree, servers[i].view.tree))
    || (exists i, j :: 0 <= i < j < |servers| && TreesCollide(r, servers[i].view.tree, servers[j].view.tree))
  }

  lemma AllCompatibleOrCollision(r: Rules, a: Peer, servers: seq<Peer>)
    requires AllComparable(r, a, servers)
    ensures WellFormed(r, a.view.tree)
    ensures AllCompatible(r, a, servers) || SomeCollide(r, a, servers)
  {
    hide Validate, IsBetterTip, NodesOk, TreesCollide, TreesAgree, ZeroFree;
    ViewNodesOk(r, a.view);
    if !SomeCollide(r, a, servers) {
      forall i | 0 <= i < |servers|
        ensures Compatible(r, a.view, servers[i].view)
      {
        ViewNodesOk(r, servers[i].view);
        NoCollisionTreesAgree(r, a.view.tree, servers[i].view.tree);
      }
      forall i, j | 0 <= i < j < |servers|
        ensures TreesAgree(servers[i].view.tree, servers[j].view.tree)
      {
        ViewNodesOk(r, servers[i].view);
        ViewNodesOk(r, servers[j].view);
        NoCollisionTreesAgree(r, servers[i].view.tree, servers[j].view.tree);
      }
    }
  }

  lemma RemembersItself(r: Rules, v: NodeView)
    requires ViewIsBestBranch(r, v)
    ensures Remembers(r, v, v.chain) && WellFormed(r, v.tree)
  {
    hide Validate, IsBetterTip, WellFormed, ValidChain, ChainKnown;
    BestChainFacts(r, v.tree);
    ViewChainKnown(r, v);
    assert v.(chain := v.chain) == v;
  }

  lemma HasOwn(r: Rules, t: Tree)
    requires WellFormed(r, t)
    ensures HasBestOf(t, t, [])
  {
    hide NodesOk, IsBetterTip;
  }

  /**
   * One pass of `sync_once` over any list of quiescent peers within reach of the node's locator: it ends on the best of
   * its own tip and the tips of the peers that are heard. If every answer attaches when its turn comes, that is the best
   * of all tips.
   */
  lemma OnePass(r: Rules, a: Peer, servers: seq<Peer>, disk: Disk)
    requires AllComparable(r, a, servers) && AllReachable(a.view.chain, a, servers)
    ensures WellFormed(r, a.view.tree)
    ensures var b := Pass(r, a, Locator(r, a.view.chain, a.maxLocator), servers, disk);
            || SomeCollide(r, a, servers)
            || (&& ViewIsBestBranch(r, b.view)
                && HasBestOf(b.view.tree, a.view.tree, Heard(r, a, a.view.chain, servers, disk)))
  {
    hide Validate, IsBetterTip, WellFormed, ViewIsBestBranch, Remembers, AllCompatible, AllReachable, HasBestOf,
         SomeCollide, Pass, Heard;
    AllCompatibleOrCollision(r, a, servers);
    SelfView(r, a, servers);
    RemembersItself(r, a.view);
    HasOwn(r, a.view.tree);
    if AllCompatible(r, a, servers) {
      PassTakesBestHeard(r, a, a.view.tree, a.view.chain, [], servers, disk);
      assert [] + Heard(r, a, a.view.chain, servers, disk) == Heard(r, a, a.view.chain, servers, disk);
    }
  }

  lemma SelfView(r: Rules, a: Peer, servers: seq<Peer>)
    requires AllComparable(r, a, servers)
    ensures ViewIsBestBranch(r, a.view)
  {
  }

  /** Once a node that started a pass without blocks has some, it hears no other peer that has blocks. */
  lemma {:induction false} HearsNobodyElse(r: Rules, a: Peer, servers: seq<Peer>, disk: Disk)
    requires AllCompatible(r, a, servers) && AllReachable([], a, servers) && Remembers(r, a.view, [])
    requires WellFormed(r, a.view.tree)
    requires a.view.chain != [] && forall i :: 0 <= i < |servers| ==> servers[i].view.chain != []
    ensures Heard(r, a, [], servers, disk) == []
    ensures Pass(r, a, Locator(r, [], a.maxLocator), servers, disk) == a
    decreases |servers|
  {
    hide Validate, IsBetterTip, WellFormed, ViewIsBestBranch, Remembers, SyncWith, AllCompatible, AllReachable;
    if servers != [] {
      StepKeepsPass(r, a, servers, [], disk);
      FirstOf(r, a, servers, []);
      PassStep(r, a, servers[0], [], disk);
      assert !StillAttached([], a.view.chain, servers[0]);
      HearsNobodyElse(r, a, servers[1..], disk);
    }
  }

  lemma FirstOf(r: Rules, a: Peer, servers: seq<Peer>, old': seq<Block>)
    requires servers != [] && AllCompatible(r, a, servers) && AllReachable(old', a, servers)
    ensures Compatible(r, a.view, servers[0].view) && Reachable(old', a, servers[0])
  {
  }

  /**
   * A node without blocks sends an empty locator, and an empty locator cannot say that an answer may start at the
   * beginning. So in its first pass it takes the chain of the first peer that has blocks and refuses all others, however
   * much better their tips are.
   */
  lemma FirstPassHearsOnePeer(r: Rules, a: Peer, servers: seq<Peer>, disk: Disk)
    requires AllCompatible(r, a, servers) && AllReachable([], a, servers)
    requires a.view.chain == [] && servers != [] && ViewIsBestBranch(r, a.view)
    requires forall i :: 0 <= i < |servers| ==> servers[i].view.chain != []
    ensures WellFormed(r, a.view.tree)
    ensures Heard(r, a, [], servers, disk) == [servers[0]]
    ensures Pass(r, a, Locator(r, [], a.maxLocator), servers, disk).view.chain == servers[0].view.chain
  {
    hide Validate, IsBetterTip, WellFormed, ViewIsBestBranch, Remembers, SyncWith, AllCompatible, AllReachable, ZeroFree,
         TreesAgree, Merged;
    RemembersItself(r, a.view);
    FirstOf(r, a, servers, []);
    StepKeepsPass(r, a, servers, [], disk);
    PassStep(r, a, servers[0], [], disk);
    var b, s := SyncWith(r, a, Locator(r, [], a.maxLocator), servers[0], disk).0, servers[0];
    assert StillAttached([], a.view.chain, s);
    NoTipYet(r, a.view, s.view);
    AgreeAfterStep(r, a.view.tree, s.view.tree, b.view.tree, s.view.tree);
    SameTipSameChain(r, b.view, s.view);
    HearsNobodyElse(r, b, servers[1..], disk);
  }

  lemma NoTipYet(r: Rules, v: NodeView, w: NodeView)
    requires Compatible(r, v, w) && v.chain == [] && w.chain != []
    ensures BetterTip(v.tree, w.tree) == w.tree.bestTip
    ensures ViewIsBestBranch(r, w) && TreesAgree(v.tree, w.tree) && TreesAgree(w.tree, w.tree)
  {
    hide Validate, IsBetterTip, WellFormed;
    HeadIsBestTip(r, v);
    HeadIsBestTip(r, w);
  }
}

/** What sync between two nodes that stand still achieves: after one round each way they agree. */
module SyncProgress {
  import opened Prelude
  import opened Domain
  import opened Validation
  import opened ForkTree
  import opened Chain
  import opened ForkOrder
  import opened Node
  import opened Sync
  import opened SyncProtocol

  // ---------------------------------------------------------------- convergence

  /** Agreeing trees with one best tip have one best chain. */
  lemma SameTipSameChain(r: Rules, v: NodeView, w: NodeView)
    requires ViewIsBestBranch(r, v) && ViewIsBestBranch(r, w) && TreesAgree(v.tree, w.tree)
    requires v.tree.bestTip == w.tree.bestTip
    ensures v.chain == w.chain
  {
    hide Validate, IsBetterTip, NodeOk;
    if v.tree.bestTip.Some? {
      var m, h := Merged(v.tree, w.tree), v.tree.bestTip.value;
      MergedHolds(r, v.tree, w.tree);
      NodesAreLinked(r, m);
      PathStable(v.tree, m, h);
      PathStable(w.tree, m, h);
    }
  }

  /** After a round the requester still agrees with everyone both nodes agreed with before. */
  lemma RoundKeepsCompatible(r: Rules, a: Peer, server: Peer, disk: Disk)
    requires Compatible(r, a.view, server.view) && CanSync(a, server)
    ensures var w := SyncFrom(r, a, server, disk).0.view;
            && Grows(a.view.tree, w.tree)
            && Grows(w.tree, Merged(a.view.tree, server.view.tree))
            && Compatible(r, server.view, w) && Compatible(r, w, server.view)
  {
    hide Validate, NodeOk, WellFormed, IsBetterTip, Insert, InsertAll, AllAccepted, SyncFrom, KnowsPart, OnlyAdds,
         ViewIsBestBranch;
    RoundInsertsSuffix(r, a, server, disk);
    ForkPointKnown(r, a.view, server.view);
    InsertPart(r, a.view.tree, server.view, ForkPoint(a.view.chain, server.view.chain), Reach(a, server));
  }

  lemma SelfFork(a: seq<Block>)
    ensures ForkPoint(a, a) == |a|
  {
    ForkPointIsLongest(a, a, |a|);
  }

  /** Having taken the better tip from the other node, there is something to give back or nothing to do. */
  lemma CanSyncBack(r: Rules, a: Peer, b: Peer, disk: Disk)
    requires Compatible(r, a.view, b.view)
    requires CanSync(a, b) && SuffixFits(a, b) && CanSync(b, a) && SuffixFits(b, a)
    ensures CanSync(b, SyncFrom(r, a, b, disk).0) && SuffixFits(b, SyncFrom(r, a, b, disk).0)
  {
    hide Validate, IsBetterTip, SyncFrom, ViewIsBestBranch, BetterTip;
    RoundInsertsSuffix(r, a, b, disk);
    RoundTakesBetterTip(r, a, b, disk);
    SelfFork(b.view.chain);
  }

  /**
   * Convergence. Two quiescent nodes, each with the fork point in its locator window and room for the other's suffix,
   * have the same active chain after each has synced from the other once: the chain of the better of the two tips.
   */
  lemma RoundsConverge(r: Rules, a: Peer, b: Peer, diskA: Disk, diskB: Disk)
    requires Compatible(r, a.view, b.view)
    requires CanSync(a, b) && SuffixFits(a, b) && CanSync(b, a) && SuffixFits(b, a)
    ensures WellFormed(r, b.view.tree)
    ensures var a' := SyncFrom(r, a, b, diskA).0;
            var b' := SyncFrom(r, b, a', diskB).0;
            && a'.view.tree.bestTip == b'.view.tree.bestTip == BetterTip(a.view.tree, b.view.tree)
            && a'.view.chain == b'.view.chain
  {
    hide Validate, IsBetterTip, SyncFrom, CanSync, SuffixFits, BetterTip, WellFormed;
    var a' := SyncFrom(r, a, b, diskA).0;
    RoundInsertsSuffix(r, a, b, diskA);
    RoundTakesBetterTip(r, a, b, diskA);
    RoundKeepsCompatible(r, a, b, diskA);
    CanSyncBack(r, a, b, diskA);
    var b' := SyncFrom(r, b, a', diskB).0;
    RoundInsertsSuffix(r, b, a', diskB);
    RoundTakesBetterTip(r, b, a', diskB);
    RoundKeepsCompatible(r, b, a', diskB);
    BetterTipAgain(r, a.view.tree, b.view.tree, a'.view.tree);
    SameTipSameChain(r, a'.view, b'.view);
  }

  /** Comparing with the better tip once more yields the better tip. */
  lemma BetterTipAgain(r: Rules, t: Tree, u: Tree, merged: Tree)
    requires WellFormed(r, t) && WellFormed(r, u) && WellFormed(r, merged) && TreesAgree(u, merged)
    requires Grows(t, merged) && merged.bestTip == BetterTip(t, u)
    ensures BetterTip(u, merged) == merged.bestTip
  {
    hide Validate, IsBetterTip;
    KeysAreHashes(r, t);
    KeysAreHashes(r, u);
    if t.bestTip.Some? && u.bestTip.Some? && t.bestTip != u.bestTip {
      BetterTotal(t.nodes[t.bestTip.value], u.nodes[u.bestTip.value]);
    }
  }

  // ---------------------------------------------------------------- rounds in a row

  ghost predicate Behind(a: Peer, server: Peer, n: nat) {
    && n <= |server.view.chain|
    && a.view.chain == server.view.chain[..n]
    && 1 <= a.maxLocator
  }

  function Pace(a: Peer, server: Peer): nat {
    Min(a.maxBlocks, server.maxBlocks)
  }

  lemma BehindFork(a: Peer, server: Peer, n: nat)
    requires Behind(a, server, n)
    ensures ForkPoint(a.view.chain, server.view.chain) == n
    ensures CanSync(a, server) <==> LocatorFits(a, server, n)
    ensures Reach(a, server) == Min(n + Pace(a, server), |server.view.chain|)
  {
    assert a.view.chain[..n] == a.view.chain;
    ForkPointIsLongest(a.view.chain, server.view.chain, n);
  }

  lemma TipDecidesChain(r: Rules, v: NodeView, w: NodeView, x: NodeView, m: nat)
    requires Compatible(r, v, w) && ViewIsBestBranch(r, x)
    requires Grows(v.tree, x.tree) && Grows(x.tree, Merged(v.tree, w.tree))
    requires 0 < m <= |w.chain| && x.tree.bestTip == Some(BlockHash(r, w.chain[m - 1]))
    ensures x.chain == w.chain[..m]
  {
    hide Validate, IsBetterTip, NodeOk, NodesOk, Merged, ZeroFree;
    ChainBlockKnown(r, w, m - 1);
    PathInUnion(r, v.tree, w.tree, x.tree, x.tree.bestTip.value);
  }

  /** A round never damages the tree, whatever the server answers. */
  lemma RoundKeepsTree(r: Rules, a: Peer, server: Peer, disk: Disk)
    requires WellFormed(r, a.view.tree)
    ensures WellFormed(r, SyncFrom(r, a, server, disk).0.view.tree)
  {
    var locator := Locator(r, a.view.chain, a.maxLocator);
    var answer := ServeHeaders(r, server, locator, a.maxBlocks);
    var replies := ServeBlocks(r, server, locator, if answer.Some? then |answer.value| else 0);
    SyncIsAtomic(r, a.view, a.view, locator, a.maxBlocks, answer, replies, disk);
  }

  ghost function AfterRounds(r: Rules, a: Peer, server: Peer, disk: Disk, rounds: nat): Peer
    requires WellFormed(r, a.view.tree)
    decreases rounds
  {
    if rounds == 0 then a
    else
      RoundKeepsTree(r, a, server, disk);
      AfterRounds(r, SyncFrom(r, a, server, disk).0, server, disk, rounds - 1)
  }

  lemma ViewOfCompatible(r: Rules, v: NodeView, w: NodeView)
    requires Compatible(r, v, w)
    ensures WellFormed(r, v.tree)
  {
  }
}

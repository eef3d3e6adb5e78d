/**
 * What sync achieves between any two nodes in zero-free reachable states. Each result holds unless two blocks, one known
 * to each node, exhibit a hash collision.
 */
module SyncResults {
  import opened Domain
  import opened Validation
  import opened ForkTree
  import opened ForkOrder
  import opened TipOrder
  import opened Chain
  import opened Node
  import opened Sync
  import opened SyncProtocol
  import opened SyncProgress
  import opened SyncLiveness

  /** Both nodes have their active chain on the best branch and know no block that hashes to zero. */
  ghost predicate Comparable(r: Rules, a: Peer, b: Peer) {
    && ViewIsBestBranch(r, a.view) && ViewIsBestBranch(r, b.view)
    && ZeroFree(a.view.tree) && ZeroFree(b.view.tree)
  }

  lemma CompatibleOrCollision(r: Rules, a: Peer, b: Peer)
    requires Comparable(r, a, b)
    ensures WellFormed(r, a.view.tree) && WellFormed(r, b.view.tree)
    ensures Compatible(r, a.view, b.view) || TreesCollide(r, a.view.tree, b.view.tree)
  {
    hide Validate, IsBetterTip, NodeOk, TreesCollide;
    if !TreesCollide(r, a.view.tree, b.view.tree) {
      NoCollisionTreesAgree(r, a.view.tree, b.view.tree);
    }
  }

  /**
   * One round of sync makes the requester's best tip the better of the two old best tips, whatever side branches either
   * node knows, and its active chain the chain of the node that had it.
   */
  lemma OneRoundTakesBetterTip(r: Rules, a: Peer, server: Peer, disk: Disk)
    requires Comparable(r, a, server) && CanSync(a, server) && SuffixFits(a, server)
    ensures WellFormed(r, a.view.tree)
    ensures var (b, ok) := SyncFrom(r, a, server, disk);
            || TreesCollide(r, a.view.tree, server.view.tree)
            || (&& ok
                && b.view.tree.bestTip == BetterTip(a.view.tree, server.view.tree)
                && b.view.chain == (if b.view.tree.bestTip == a.view.tree.bestTip then a.view.chain else server.view.chain)
                && ViewIsBestBranch(r, b.view))
  {
    hide Validate, IsBetterTip, WellFormed, SyncFrom, TreesCollide, ViewIsBestBranch, BetterTip, CanSync, SuffixFits,
         Compatible, Comparable;
    CompatibleOrCollision(r, a, server);
    if Compatible(r, a.view, server.view) {
      RoundTakesBetterTip(r, a, server, disk);
    }
  }

  /**
   * Convergence. Two quiescent nodes, each with the fork point in its locator window and room for the other's suffix,
   * have the same active chain after each has synced from the other once: the chain of the better of the two tips.
   */
  lemma SyncBothWaysConverges(r: Rules, a: Peer, b: Peer, diskA: Disk, diskB: Disk)
    requires Comparable(r, a, b)
    requires CanSync(a, b) && SuffixFits(a, b) && CanSync(b, a) && SuffixFits(b, a)
    ensures WellFormed(r, a.view.tree) && WellFormed(r, b.view.tree)
    ensures var a' := SyncFrom(r, a, b, diskA).0;
            var b' := SyncFrom(r, b, a', diskB).0;
            || TreesCollide(r, a.view.tree, b.view.tree)
            || (&& a'.view.tree.bestTip == b'.view.tree.bestTip == BetterTip(a.view.tree, b.view.tree)
                && a'.view.chain == b'.view.chain)
  {
    hide Validate, IsBetterTip, WellFormed, SyncFrom, TreesCollide, BetterTip, CanSync, SuffixFits, Compatible, Comparable;
    CompatibleOrCollision(r, a, b);
    if Compatible(r, a.view, b.view) {
      RoundsConverge(r, a, b, diskA, diskB);
    }
  }

  /** The first `n` blocks of a chain, or all of it. */
  function FirstBlocks(chain: seq<Block>, n: nat): seq<Block> {
    if n < |chain| then chain[..n] else chain
  }

  /** The height that `k` rounds of `pace` blocks lead to from `n`, if there are enough blocks. */
  function Height(n: nat, k: nat, pace: nat): nat {
    n + k * pace
  }

  /**
   * Catch-up. A node that has the first `n` blocks of the server's chain has, after `k` rounds, exactly the blocks that
   * these rounds lead to, provided the server takes the locator of the last of them. If the server's chain ends before
   * scores wrap for the first time, these are the first `n + k * pace` blocks, or all.
   */
  lemma CatchUp(r: Rules, a: Peer, server: Peer, disk: Disk, n: nat, k: nat)
    requires Comparable(r, a, server) && Behind(a, server, n)
    requires k > 0 ==> LocatorFits(a, server, Progress(r, n, k - 1, Pace(a, server), |server.view.chain|))
    ensures WellFormed(r, a.view.tree)
    ensures || TreesCollide(r, a.view.tree, server.view.tree)
            || AfterRounds(r, a, server, disk, k).view.chain
               == server.view.chain[..Progress(r, n, k, Pace(a, server), |server.view.chain|)]
    ensures |server.view.chain| < Period(r) ==>
              || TreesCollide(r, a.view.tree, server.view.tree)
              || AfterRounds(r, a, server, disk, k).view.chain
                 == FirstBlocks(server.view.chain, Height(n, k, Pace(a, server)))
  {
    hide Validate, IsBetterTip, WellFormed, SyncFrom, TreesCollide, Compatible, Comparable, AfterRounds, LocatorFits,
         Progress, Pace, Period;
    CompatibleOrCollision(r, a, server);
    if |server.view.chain| < Period(r) {
      ProgressIsLinear(r, n, k, Pace(a, server), |server.view.chain|);
    }
    if Compatible(r, a.view, server.view) {
      CatchesUp(r, a, server, disk, n, k);
    }
  }

  /**
   * Repeated sync from a server that stands still brings a node onto the server's chain if and only if it is there
   * already, or the server takes its locators, the fork point is in its window, the first blocks after the fork point, as
   * many as one response carries, overtake its own branch, and rounds lead on from there.
   */
  lemma SyncReachesTipExactly(r: Rules, a: Peer, server: Peer, disk: Disk)
    requires Comparable(r, a, server) && 1 <= a.maxLocator
    ensures WellFormed(r, a.view.tree)
    ensures || TreesCollide(r, a.view.tree, server.view.tree)
            || ((exists k: nat :: AfterRounds(r, a, server, disk, k).view.chain == server.view.chain)
                <==> || a.view.chain == server.view.chain
                     || (CanAdvance(r, a, server) && Completes(r, a, server, FirstPeak(r, a, server))))
  {
    hide Validate, IsBetterTip, WellFormed, TreesCollide, Compatible, Comparable, AfterRounds, CanAdvance, Completes,
         FirstPeak;
    CompatibleOrCollision(r, a, server);
    if Compatible(r, a.view, server.view) {
      ReachesTipExactly(r, a, server, disk);
    }
  }

  /**
   * A node that has the first `n` blocks of the server's chain, and whose locators the server always takes, reaches its
   * end if and only if it is there, or responses carry anything and either the server's chain ends before scores wrap for
   * the first time or one response carries as many blocks as there are between wraps.
   */
  lemma FollowerReachesTipExactly(r: Rules, a: Peer, server: Peer, disk: Disk, n: nat)
    requires Comparable(r, a, server) && Behind(a, server, n) && a.maxLocator <= server.maxLocator
    ensures WellFormed(r, a.view.tree)
    ensures || TreesCollide(r, a.view.tree, server.view.tree)
            || ((exists k: nat :: AfterRounds(r, a, server, disk, k).view.chain == server.view.chain)
                <==> || n == |server.view.chain|
                     || (&& Pace(a, server) > 0
                         && (|server.view.chain| < Period(r) || Pace(a, server) >= Period(r))))
  {
    hide Validate, IsBetterTip, WellFormed, TreesCollide, AfterRounds, Completes, Period, Compatible, Behind, Pace,
         ViewIsBestBranch, TipHeight;
    BehindLength(a, server, n);
    ViewTipHeight(r, a.view);
    ViewTipHeight(r, server.view);
    CompatibleOrCollision(r, a, server);
    CompletesExactly(r, a, server, n);
    if Compatible(r, a.view, server.view) {
      if Completes(r, a, server, n) {
        var k := CompletesReaches(r, a, server, disk, n);
        assert AfterRounds(r, a, server, disk, k).view.chain == server.view.chain;
      } else {
        forall k: nat
          ensures AfterRounds(r, a, server, disk, k).view.chain != server.view.chain
        {
          NeverComplete(r, a, server, disk, n, k);
        }
      }
    }
  }

  lemma BehindLength(a: Peer, server: Peer, n: nat)
    requires Behind(a, server, n)
    ensures |a.view.chain| == n <= |server.view.chain|
  {
  }

  /**
   * A response that carries at least as many blocks as a locator has hashes (the default: 128 and 32) leaves only the
   * window, as long as the server's chain ends before scores wrap and the server takes locators of the requester's
   * length: a longer chain is reached exactly when the fork point is in the window.
   */
  lemma WideResponsesNeedOnlyTheWindow(r: Rules, a: Peer, server: Peer, disk: Disk)
    requires Comparable(r, a, server) && 1 <= a.maxLocator <= server.maxLocator
    requires a.maxLocator <= Pace(a, server)
    requires |a.view.chain| < |server.view.chain| < Period(r)
    ensures WellFormed(r, a.view.tree)
    ensures || TreesCollide(r, a.view.tree, server.view.tree)
            || ((exists k: nat :: AfterRounds(r, a, server, disk, k).view.chain == server.view.chain)
                <==> InWindow(a.view.chain, server.view.chain, a.maxLocator))
  {
    hide Validate, IsBetterTip, WellFormed, TreesCollide, Comparable, AfterRounds, Period, Completes, HeadHash;
    SyncReachesTipExactly(r, a, server, disk);
    LocatorAlwaysFits(a, server, |a.view.chain|);
    var n, m := ForkPoint(a.view.chain, server.view.chain), Reach(a, server);
    if InWindow(a.view.chain, server.view.chain, a.maxLocator) {
      PeakBelowWrap(r, n, m);
      SmallMod(m, Period(r));
      SmallMod(|a.view.chain|, Period(r));
      CompletesExactly(r, a, server, m);
    }
  }
}

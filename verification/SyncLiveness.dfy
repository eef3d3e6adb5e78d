/**
 * Repeated sync from one server: what a round brings, how a node catches up, and exactly when it reaches the server's
 * tip. Scores may wrap.
 */
module SyncLiveness {
  import opened Prelude
  import opened Domain
  import opened Validation
  import opened ForkTree
  import opened Chain
  import opened ForkOrder
  import opened TipOrder
  import opened Node
  import opened Sync
  import opened SyncProtocol
  import opened SyncProgress

  /**
   * The part of the server's chain that one round transfers overtakes the requester's chain: its highest-ranking block
   * ranks above the requester's tip.
   */
  predicate Overtakes(r: Rules, a: Peer, server: Peer) {
    var mine, theirs, n, m := a.view.chain, server.view.chain, ForkPoint(a.view.chain, server.view.chain), Reach(a, server);
    && n < m
    && (mine == []
        || RanksAbove(r, Peak(r, n, m), BlockHash(r, theirs[Peak(r, n, m) - 1]), |mine|, HeadHash(r, mine)))
  }

  // ---------------------------------------------------------------- which tip wins

  /** After taking in `chain[n..m]` the best tip is the old one or the highest-ranking block of that part. */
  lemma TipAfterPart(r: Rules, t: Tree, w: NodeView, u: Tree, n: nat, m: nat)
    requires WellFormed(r, t) && WellFormed(r, u) && ViewIsBestBranch(r, w) && TreesAgree(t, w.tree)
    requires Grows(t, u) && Grows(u, Merged(t, w.tree))
    requires n < m <= |w.chain|
    requires KnowsPart(r, u, w.chain, n, m) && OnlyAdds(r, t, u, w.chain, n, m)
    ensures var h := BlockHash(r, w.chain[Peak(r, n, m) - 1]);
            u.bestTip == if t.bestTip == None || RanksAbove(r, Peak(r, n, m), h, BestHeight(t), t.bestTip.value)
                         then Some(h) else t.bestTip
  {
    hide Validate, IsBetterTip, NodeOk, NodesOk, WellFormed, RanksAbove, Peak;
    var k := Peak(r, n, m);
    var h := BlockHash(r, w.chain[k - 1]);
    assert h in u.nodes;
    ChainBlockKnown(r, w, k - 1);
    assert u.nodes[h].nextHeight == k;
    OldOrPeak(r, t, w, u, n, m);
    BestIsUnbeaten(r, u, h);
    if t.bestTip.Some? {
      BestTipKnown(r, t);
      var best := t.bestTip.value;
      BestIsUnbeaten(r, u, best);
      RankDecides(r, u, h, best);
      if best != h {
        KeysAreHashes(r, u);
        BetterTotal(u.nodes[h], u.nodes[best]);
      } else {
        NotAboveSelf(r, k, h);
      }
    }
  }

  lemma NotAboveSelf(r: Rules, k: nat, h: Digest)
    ensures !RanksAbove(r, k, h, k, h)
  {
    hide Period;
  }

  lemma OldOrPeak(r: Rules, t: Tree, w: NodeView, u: Tree, n: nat, m: nat)
    requires WellFormed(r, t) && WellFormed(r, u) && ViewIsBestBranch(r, w) && TreesAgree(t, w.tree)
    requires Grows(t, u) && Grows(u, Merged(t, w.tree))
    requires n < m <= |w.chain|
    requires KnowsPart(r, u, w.chain, n, m) && OnlyAdds(r, t, u, w.chain, n, m)
    ensures u.bestTip == Some(BlockHash(r, w.chain[Peak(r, n, m) - 1])) || (u.bestTip == t.bestTip && t.bestTip.Some?)
  {
    hide Validate, IsBetterTip, NodeOk, NodesOk, WellFormed, RanksAbove, Peak, ViewIsBestBranch;
    var k := Peak(r, n, m);
    var h := BlockHash(r, w.chain[k - 1]);
    assert h in u.nodes;
    BestIsUnbeaten(r, u, h);
    var x := u.bestTip.value;
    if x in t.nodes {
      OldTipStays(r, t, u);
    } else if x != h {
      var i :| n <= i < m && BlockHash(r, w.chain[i]) == x;
      PartHeight(r, t, w, u, k - 1);
      PartHeight(r, t, w, u, i);
      PeakRanks(r, n, m, i + 1, h, x);
      RankDecides(r, u, h, x);
    }
  }

  /** A block of the server's chain that is known has its height. */
  lemma PartHeight(r: Rules, t: Tree, w: NodeView, u: Tree, i: nat)
    requires ViewIsBestBranch(r, w) && TreesAgree(t, w.tree) && Grows(u, Merged(t, w.tree))
    requires i < |w.chain| && BlockHash(r, w.chain[i]) in u.nodes
    ensures u.nodes[BlockHash(r, w.chain[i])].nextHeight == i + 1
  {
    hide Validate, IsBetterTip, NodeOk, NodesOk, WellFormed, PathTo;
    ChainBlockKnown(r, w, i);
  }

  /** If the best tip of a grown tree was known before, it was the best tip before. */
  lemma OldTipStays(r: Rules, t: Tree, u: Tree)
    requires WellFormed(r, t) && WellFormed(r, u) && Grows(t, u)
    requires u.bestTip.Some? && u.bestTip.value in t.nodes
    ensures u.bestTip == t.bestTip
  {
    hide Validate, IsBetterTip, NodeOk, NodesOk, WellFormed;
    var x := u.bestTip.value;
    BestIsUnbeaten(r, t, x);
    if x != t.bestTip.value {
      BestIsUnbeaten(r, u, t.bestTip.value);
      KeysAreHashes(r, u);
      BetterTotal(u.nodes[x], u.nodes[t.bestTip.value]);
    }
  }

  // ---------------------------------------------------------------- one round

  /** What a view says about its own tip. */
  lemma ViewTip(r: Rules, v: NodeView)
    requires ViewIsBestBranch(r, v)
    ensures WellFormed(r, v.tree) && Linked(v.tree) && v.chain == BestChain(v.tree)
    ensures |v.chain| == BestHeight(v.tree)
    ensures v.tree.bestTip.Some? ==> v.tree.bestTip.value in v.tree.nodes && HeadHash(r, v.chain) == v.tree.bestTip.value
    ensures v.tree.bestTip.Some? <==> v.chain != []
  {
    hide Validate, IsBetterTip, NodesOk, ValidChain;
    BestChainFacts(r, v.tree);
  }

  /** With its old best tip, a grown tree has its old best chain. */
  lemma SameTipKeepsChain(t: Tree, u: Tree, r: Rules)
    requires Linked(t) && Linked(u) && Grows(t, u) && u.bestTip == t.bestTip
    requires t.bestTip.Some? ==> t.bestTip.value in t.nodes
    ensures BestChain(u) == BestChain(t)
  {
    if t.bestTip.Some? {
      PathStable(t, u, t.bestTip.value);
    }
  }

  /** The chain after taking in `chain[n..m]`. */
  lemma ChainAfterPart(r: Rules, v: NodeView, w: NodeView, x: NodeView, n: nat, m: nat)
    requires Compatible(r, v, w) && ViewIsBestBranch(r, x)
    requires n < m <= |w.chain|
    requires n > 0 ==> BlockHash(r, w.chain[n - 1]) in v.tree.nodes
    requires x.tree == InsertAll(r, v.tree, w.chain[n..m])
    ensures var k := Peak(r, n, m);
            x.chain ==
              if v.chain == [] || RanksAbove(r, k, BlockHash(r, w.chain[k - 1]), |v.chain|, HeadHash(r, v.chain))
              then w.chain[..k] else v.chain
  {
    hide Validate, InsertAll, AllAccepted, WellFormed, KnowsPart, OnlyAdds, Merged, TreesAgree, ZeroFree,
         ViewIsBestBranch, BestChain, HeadHash, RanksAbove, Linked, BestHeight, Peak;
    ViewTip(r, v);
    ViewTip(r, x);
    InsertPart(r, v.tree, w, n, m);
    TipAfterPart(r, v.tree, w, x.tree, n, m);
    var k := Peak(r, n, m);
    if x.tree.bestTip == Some(BlockHash(r, w.chain[k - 1])) {
      TipDecidesChain(r, v, w, x, k);
    }
    if x.tree.bestTip == v.tree.bestTip {
      SameTipKeepsChain(v.tree, x.tree, r);
    }
  }

  /** One round moves the requester to the peak of the transferred part if that overtakes, and else not at all. */
  lemma RoundOutcome(r: Rules, a: Peer, server: Peer, disk: Disk)
    requires Compatible(r, a.view, server.view) && CanSync(a, server)
    ensures WellFormed(r, a.view.tree)
    ensures SyncFrom(r, a, server, disk).1
    ensures var b, n := SyncFrom(r, a, server, disk).0, ForkPoint(a.view.chain, server.view.chain);
            && b.view.chain == (if Overtakes(r, a, server) then server.view.chain[..Peak(r, n, Reach(a, server))]
                                else a.view.chain)
            && b == a.(view := b.view)
            && Compatible(r, b.view, server.view)
  {
    hide Validate, WellFormed, SyncFrom, ViewIsBestBranch, CanSync, TreesAgree, ZeroFree, Merged, InsertAll, HeadHash,
         RanksAbove, Peak;
    ViewOfCompatible(r, a.view, server.view);
    RoundInsertsSuffix(r, a, server, disk);
    RoundKeepsCompatible(r, a, server, disk);
    var v, w, x := a.view, server.view, SyncFrom(r, a, server, disk).0.view;
    var n, m := ForkPoint(v.chain, w.chain), Reach(a, server);
    if n < m {
      ForkPointKnown(r, v, w);
      ChainAfterPart(r, v, w, x, n, m);
    } else {
      assert Transferred(a, server) == [];
      InsertNothing(r, v.tree);
      ViewTip(r, v);
      ViewTip(r, x);
    }
  }

  /** A round that cannot go through does nothing: the fork point is outside the window, or the locator is too long. */
  lemma CannotSyncChangesNothing(r: Rules, a: Peer, server: Peer, disk: Disk)
    requires Compatible(r, a.view, server.view) && !CanSync(a, server)
    requires a.maxLocator >= 1
    ensures WellFormed(r, a.view.tree)
    ensures SyncFrom(r, a, server, disk).0 == a
  {
    hide Validate, WellFormed, ViewIsBestBranch, TreesAgree, ZeroFree, Locator, BlocksAfter, Fetched, HeadersAccepted,
         SyncBatch, BlockReplies;
    ViewOfCompatible(r, a.view, server.view);
    ViewsAgree(r, a.view, server.view);
    LocatorLength(r, a.view.chain, a.maxLocator);
    HonestAnswerAccepted(r, a.view.chain, server.view.chain, a.maxLocator, Min(a.maxBlocks, server.maxBlocks));
  }

  // ---------------------------------------------------------------- catching up

  /**
   * Where one round takes a node that has the first `n` blocks of a chain of `length`: to the highest-ranking block it
   * transfers, unless the node's own tip ranks higher because scores have wrapped in between.
   */
  function NextHeight(r: Rules, n: nat, pace: nat, length: nat): (m: nat)
    requires n <= length
    ensures n <= m <= length
  {
    var m := Min(n + pace, length);
    if n < m && n % Period(r) <= Peak(r, n, m) % Period(r) then Peak(r, n, m) else n
  }

  /** Where `k` rounds take it. */
  function Progress(r: Rules, n: nat, k: nat, pace: nat, length: nat): (m: nat)
    requires n <= length
    ensures n <= m <= length
    decreases k
  {
    if k == 0 then n else Progress(r, NextHeight(r, n, pace, length), k - 1, pace, length)
  }

  lemma NextBelowWrap(r: Rules, n: nat, pace: nat, length: nat)
    requires n <= length < Period(r)
    ensures NextHeight(r, n, pace, length) == Min(n + pace, length)
  {
    hide Period, Peak;
    var m := Min(n + pace, length);
    if n < m {
      PeakBelowWrap(r, n, m);
      SmallMod(n, Period(r));
      SmallMod(m, Period(r));
    }
  }

  /**
   * Below the first wrap, in closed form: `n + k * pace` blocks, or all of them; so `ceil(gap / pace)` rounds are enough
   * and necessary.
   */
  lemma {:induction false} ProgressIsLinear(r: Rules, n: nat, k: nat, pace: nat, length: nat)
    requires n <= length < Period(r)
    ensures Progress(r, n, k, pace, length) == if n + k * pace < length then n + k * pace else length
    decreases k
  {
    hide Period, NextHeight;
    if k > 0 {
      assert k * pace == (k - 1) * pace + pace;
      assert (k - 1) * pace >= 0;
      NextBelowWrap(r, n, pace, length);
      ProgressIsLinear(r, Min(n + pace, length), k - 1, pace, length);
    }
  }

  /** A node whose chain is a prefix of the server's moves forward to the next height. */
  lemma RoundCatchesUp(r: Rules, a: Peer, server: Peer, disk: Disk, n: nat)
    requires Compatible(r, a.view, server.view) && Behind(a, server, n) && LocatorFits(a, server, n)
    ensures WellFormed(r, a.view.tree)
    ensures var a' := SyncFrom(r, a, server, disk).0;
            && SyncFrom(r, a, server, disk).1
            && Behind(a', server, NextHeight(r, n, Pace(a, server), |server.view.chain|))
            && a' == a.(view := a'.view)
            && Compatible(r, a'.view, server.view)
  {
    hide Validate, SyncFrom, CanSync, WellFormed, Peak, HeadHash, Period, Compatible, ForkPoint, LocatorFits, Overtakes,
         Reach;
    BehindFork(a, server, n);
    FollowerOvertakes(r, a, server, n);
    RoundOutcome(r, a, server, disk);
  }

  /** For a node on the server's chain only heights matter. */
  lemma FollowerOvertakes(r: Rules, a: Peer, server: Peer, n: nat)
    requires Behind(a, server, n)
    ensures var m := Min(n + Pace(a, server), |server.view.chain|);
            Overtakes(r, a, server) <==> n < m && n % Period(r) <= Peak(r, n, m) % Period(r)
  {
    hide Period, Peak, HeadHash, BlockHash;
    BehindFork(a, server, n);
    SmallMod(0, Period(r));
  }

  /** A longer chain has no shorter locator. */
  lemma LocatorGrows(a: Peer, server: Peer, n: nat, m: nat)
    requires n <= m && LocatorFits(a, server, m)
    ensures LocatorFits(a, server, n)
  {
  }

  /**
   * Catch-up. After `k` rounds the requester holds exactly the blocks of the server's chain that the rounds lead to,
   * provided the server takes the locator of the last of these rounds.
   */
  lemma {:induction false} CatchesUp(r: Rules, a: Peer, server: Peer, disk: Disk, n: nat, k: nat)
    requires Compatible(r, a.view, server.view) && Behind(a, server, n)
    requires k > 0 ==> LocatorFits(a, server, Progress(r, n, k - 1, Pace(a, server), |server.view.chain|))
    ensures WellFormed(r, a.view.tree)
    ensures AfterRounds(r, a, server, disk, k).view.chain
            == server.view.chain[..Progress(r, n, k, Pace(a, server), |server.view.chain|)]
    decreases k
  {
    hide Validate, IsBetterTip, WellFormed, SyncFrom, Compatible, NextHeight, LocatorSize;
    ViewOfCompatible(r, a.view, server.view);
    if k > 0 {
      var pace, length := Pace(a, server), |server.view.chain|;
      RoundKeepsTree(r, a, server, disk);
      LocatorGrows(a, server, n, Progress(r, n, k - 1, pace, length));
      RoundCatchesUp(r, a, server, disk, n);
      CatchesUp(r, SyncFrom(r, a, server, disk).0, server, disk, NextHeight(r, n, pace, length), k - 1);
    }
  }

  // ---------------------------------------------------------------- any number of rounds

  /** One round can bring the requester forward. */
  predicate CanAdvance(r: Rules, a: Peer, server: Peer) {
    CanSync(a, server) && Overtakes(r, a, server)
  }

  /** From the first `n` blocks of the server's chain, rounds lead to its end, and the server takes all their locators. */
  predicate Completes(r: Rules, a: Peer, server: Peer, n: nat)
    requires n <= |server.view.chain|
    decreases |server.view.chain| - n
  {
    var length := |server.view.chain|;
    || n == length
    || (&& LocatorFits(a, server, n)
        && n < NextHeight(r, n, Pace(a, server), length)
        && Completes(r, a, server, NextHeight(r, n, Pace(a, server), length)))
  }

  /** A node that cannot advance keeps its chain for ever. */
  lemma {:induction false} Stalled(r: Rules, a: Peer, server: Peer, disk: Disk, k: nat)
    requires Compatible(r, a.view, server.view) && 1 <= a.maxLocator
    requires !CanAdvance(r, a, server)
    ensures WellFormed(r, a.view.tree)
    ensures AfterRounds(r, a, server, disk, k).view.chain == a.view.chain
    decreases k
  {
    hide Validate, IsBetterTip, WellFormed, SyncFrom, Compatible, InWindow, HeadHash, ForkPoint, RanksAbove, Peak;
    ViewOfCompatible(r, a.view, server.view);
    if k > 0 {
      RoundKeepsTree(r, a, server, disk);
      if CanSync(a, server) {
        RoundOutcome(r, a, server, disk);
      } else {
        CannotSyncChangesNothing(r, a, server, disk);
      }
      Stalled(r, SyncFrom(r, a, server, disk).0, server, disk, k - 1);
    }
  }

  /** `Completes` depends on the requester's limits alone. */
  lemma {:induction false} CompletesStable(r: Rules, a: Peer, b: Peer, server: Peer, n: nat)
    requires n <= |server.view.chain| && b == a.(view := b.view)
    ensures Completes(r, a, server, n) <==> Completes(r, b, server, n)
    decreases |server.view.chain| - n
  {
    hide NextHeight, LocatorSize;
    var m := NextHeight(r, n, Pace(a, server), |server.view.chain|);
    if n < m {
      CompletesStable(r, a, b, server, m);
    }
  }

  /** A node on the server's chain from where rounds lead to its end gets there. */
  lemma {:induction false} CompletesReaches(r: Rules, a: Peer, server: Peer, disk: Disk, n: nat) returns (k: nat)
    requires Compatible(r, a.view, server.view) && Behind(a, server, n) && Completes(r, a, server, n)
    ensures WellFormed(r, a.view.tree)
    ensures AfterRounds(r, a, server, disk, k).view.chain == server.view.chain
    decreases |server.view.chain| - n
  {
    hide Validate, IsBetterTip, WellFormed, SyncFrom, Compatible, NextHeight, LocatorSize;
    ViewOfCompatible(r, a.view, server.view);
    if n == |server.view.chain| {
      k := 0;
    } else {
      var m := NextHeight(r, n, Pace(a, server), |server.view.chain|);
      RoundKeepsTree(r, a, server, disk);
      RoundCatchesUp(r, a, server, disk, n);
      var b := SyncFrom(r, a, server, disk).0;
      CompletesStable(r, a, b, server, m);
      var j := CompletesReaches(r, b, server, disk, m);
      k := j + 1;
    }
  }

  /** Any other node on the server's chain never has the whole chain. */
  lemma {:induction false} NeverComplete(r: Rules, a: Peer, server: Peer, disk: Disk, n: nat, k: nat)
    requires Compatible(r, a.view, server.view) && Behind(a, server, n) && !Completes(r, a, server, n)
    ensures WellFormed(r, a.view.tree)
    ensures AfterRounds(r, a, server, disk, k).view.chain != server.view.chain
    decreases k
  {
    hide Validate, IsBetterTip, WellFormed, SyncFrom, Compatible, InWindow, ForkPoint, LocatorSize, NextHeight;
    ViewOfCompatible(r, a.view, server.view);
    if k > 0 {
      RoundKeepsTree(r, a, server, disk);
      BehindFork(a, server, n);
      if LocatorFits(a, server, n) {
        var m := NextHeight(r, n, Pace(a, server), |server.view.chain|);
        RoundCatchesUp(r, a, server, disk, n);
        var b := SyncFrom(r, a, server, disk).0;
        CompletesStable(r, a, b, server, m);
        NeverComplete(r, b, server, disk, m, k - 1);
      } else {
        CannotSyncChangesNothing(r, a, server, disk);
        NeverComplete(r, a, server, disk, n, k - 1);
      }
    }
  }

  /** Where the first round takes a node that can advance. */
  function FirstPeak(r: Rules, a: Peer, server: Peer): (n: nat)
    ensures n <= |server.view.chain|
  {
    var n, m := ForkPoint(a.view.chain, server.view.chain), Reach(a, server);
    if n < m then Peak(r, n, m) else n
  }

  lemma FirstRound(r: Rules, a: Peer, server: Peer, disk: Disk)
    requires Compatible(r, a.view, server.view) && 1 <= a.maxLocator && CanAdvance(r, a, server)
    ensures WellFormed(r, a.view.tree)
    ensures var b := SyncFrom(r, a, server, disk).0;
            && Compatible(r, b.view, server.view) && Behind(b, server, FirstPeak(r, a, server))
            && (Completes(r, a, server, FirstPeak(r, a, server)) <==> Completes(r, b, server, FirstPeak(r, a, server)))
  {
    hide Validate, IsBetterTip, WellFormed, SyncFrom, Compatible, HeadHash, ForkPoint, RanksAbove, Peak, Completes;
    RoundOutcome(r, a, server, disk);
    CompletesStable(r, a, SyncFrom(r, a, server, disk).0, server, FirstPeak(r, a, server));
  }

  /**
   * Repeated sync from a server that stands still brings a node onto the server's chain if and only if it is there
   * already, or the server takes its locators, the fork point is in its window, the first blocks after the fork point, as
   * many as one response carries, overtake its own branch, and rounds lead on from there. In particular a node whose own
   * branch is longer than one response never joins the server, however much better the server's tip is
   * (`LongerBranchNeverOvertaken`).
   */
  lemma ReachesTipExactly(r: Rules, a: Peer, server: Peer, disk: Disk)
    requires Compatible(r, a.view, server.view) && 1 <= a.maxLocator
    ensures WellFormed(r, a.view.tree)
    ensures (exists k: nat :: AfterRounds(r, a, server, disk, k).view.chain == server.view.chain)
            <==> || a.view.chain == server.view.chain
                 || (CanAdvance(r, a, server) && Completes(r, a, server, FirstPeak(r, a, server)))
  {
    hide Validate, IsBetterTip, WellFormed, SyncFrom, Compatible, CanAdvance, Completes, FirstPeak;
    ViewOfCompatible(r, a.view, server.view);
    assert AfterRounds(r, a, server, disk, 0) == a;
    if CanAdvance(r, a, server) {
      FirstRound(r, a, server, disk);
      RoundKeepsTree(r, a, server, disk);
      var b, n := SyncFrom(r, a, server, disk).0, FirstPeak(r, a, server);
      if Completes(r, a, server, n) {
        var j := CompletesReaches(r, b, server, disk, n);
        assert AfterRounds(r, a, server, disk, j + 1).view.chain == server.view.chain;
      } else if a.view.chain != server.view.chain {
        forall k: nat
          ensures AfterRounds(r, a, server, disk, k).view.chain != server.view.chain
        {
          if k > 0 {
            NeverComplete(r, b, server, disk, n, k - 1);
          }
        }
      }
    } else {
      forall k: nat
        ensures AfterRounds(r, a, server, disk, k).view.chain == a.view.chain
      {
        Stalled(r, a, server, disk, k);
      }
    }
  }

  // ---------------------------------------------------------------- when rounds lead to the end

  /** The heights that best tips can have. */
  predicate TipHeight(r: Rules, n: nat) {
    n < Period(r) || (n + 1) % Period(r) == 0
  }

  lemma JustBehind(n: nat, m: nat, p: nat)
    requires p >= 1 && (n + 1) % p == 0 && n < m < n + p
    ensures (m + 1) % p == m - n && m % p == m - n - 1
  {
    var s := (n + 1) / p;
    assert n + 1 == s * p;
    ModOf(s, m - n, p);
    ModOf(s, m - n - 1, p);
  }

  /** With a pace below the period a node does not get over the last block before a wrap. */
  lemma StopsAtWrap(r: Rules, n: nat, pace: nat, length: nat)
    requires n <= length && (n + 1) % Period(r) == 0 && pace < Period(r)
    ensures NextHeight(r, n, pace, length) == n
  {
    hide Period;
    var m := Min(n + pace, length);
    if n < m {
      JustBehind(n, m, Period(r));
      ModNext(n, Period(r));
    }
  }

  /** On the way to the first wrap a node with a pace below the period does not get past it. */
  lemma NoFurtherThanWrap(r: Rules, n: nat, pace: nat, length: nat)
    requires n <= length && n + 1 < Period(r) <= length && 0 < pace < Period(r)
    ensures n < NextHeight(r, n, pace, length) < Period(r)
  {
    hide Period;
    var m, p := Min(n + pace, length), Period(r);
    SmallMod(n, p);
    if m + 1 < p {
      PeakBelowWrap(r, n, m);
      SmallMod(m, p);
    } else {
      ModOf(1, m + 1 - p, p);
      SmallMod(p - 1, p);
      assert Peak(r, n, m) == p - 1;
    }
  }

  /** With a pace of a whole period every round leads to the last block before some wrap, or to the end. */
  lemma WholePeriods(r: Rules, n: nat, pace: nat, length: nat)
    requires n < length && (length + 1) % Period(r) == 0 && pace >= Period(r)
    ensures var m := NextHeight(r, n, pace, length); n < m && (m + 1) % Period(r) == 0
  {
    hide Period;
    var m, p := Min(n + pace, length), Period(r);
    var q := m as int - (m + 1) % p;
    assert q > n;
    LastBeforeWrap(m, p);
    ModNext(q, p);
  }

  /**
   * If the server takes every locator the node can send, rounds lead to the end if and only if responses carry anything
   * and either the server's chain ends before the first wrap or one response carries a whole period.
   */
  lemma {:induction false} CompletesExactly(r: Rules, a: Peer, server: Peer, n: nat)
    requires a.maxLocator <= server.maxLocator
    requires n <= |server.view.chain| && TipHeight(r, n) && TipHeight(r, |server.view.chain|)
    ensures Completes(r, a, server, n) <==>
              || n == |server.view.chain|
              || (Pace(a, server) > 0 && (|server.view.chain| < Period(r) || Pace(a, server) >= Period(r)))
    decreases |server.view.chain| - n
  {
    hide Period, NextHeight, LocatorSize;
    var pace, length, p := Pace(a, server), |server.view.chain|, Period(r);
    if n < length && pace > 0 {
      LocatorAlwaysFits(a, server, n);
      if length < p {
        NextBelowWrap(r, n, pace, length);
        CompletesExactly(r, a, server, NextHeight(r, n, pace, length));
      } else if pace >= p {
        WholePeriods(r, n, pace, length);
        CompletesExactly(r, a, server, NextHeight(r, n, pace, length));
      } else if (n + 1) % p == 0 {
        StopsAtWrap(r, n, pace, length);
      } else {
        NotLastOfPeriod(n, p);
        NoFurtherThanWrap(r, n, pace, length);
        CompletesExactly(r, a, server, NextHeight(r, n, pace, length));
      }
    } else if n < length {
      NoPace(r, n, length);
    }
  }

  lemma NoPace(r: Rules, n: nat, length: nat)
    requires n <= length
    ensures NextHeight(r, n, 0, length) == n
  {
    hide Period, Peak;
  }

  lemma NotLastOfPeriod(n: nat, p: nat)
    requires n < p && (n + 1) % p != 0
    ensures n + 1 < p
  {
  }

  lemma LocatorAlwaysFits(a: Peer, server: Peer, n: nat)
    requires a.maxLocator <= server.maxLocator
    ensures LocatorFits(a, server, n)
  {
  }

  /** The active chain of a node has a height that best tips can have. */
  lemma ViewTipHeight(r: Rules, v: NodeView)
    requires ViewIsBestBranch(r, v)
    ensures TipHeight(r, |v.chain|)
  {
    hide Validate, IsBetterTip, NodesOk, ValidChain, Period;
    BestChainFacts(r, v.tree);
    BestHeightShape(r, v.tree);
    ModNext(|v.chain|, Period(r));
  }

  /** What one response carries never overtakes a branch that is longer. */
  lemma LongerBranchNeverOvertaken(r: Rules, a: Peer, server: Peer)
    requires ViewIsBestBranch(r, a.view) && Reach(a, server) < |a.view.chain|
    ensures !Overtakes(r, a, server)
  {
    hide Validate, IsBetterTip, NodesOk, WellFormed, ViewIsBestBranch, Period, HeadHash, BlockHash, ForkPoint;
    ViewTipHeight(r, a.view);
    var n, m, mine, p := ForkPoint(a.view.chain, server.view.chain), Reach(a, server), |a.view.chain|, Period(r);
    if n < m {
      SmallMod(Peak(r, n, m), p);
      SmallMod(mine, p);
      ModNext(mine, p);
    }
  }
}

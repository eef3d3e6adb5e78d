/** The state machine and the log text together: what a node comes back with after a stop or a crash. */
module CrashRecovery {
  import opened Prelude
  import opened Domain
  import opened Validation
  import opened Training
  import opened ForkTree
  import opened ForkOrder
  import opened Chain
  import opened Node
  import opened NodeRuns
  import opened Wire
  import opened Storage
  import opened LogRecovery

  lemma {:induction false} InsertAllSplit(r: Rules, t: Tree, blocks: seq<Block>, n: nat)
    requires n <= |blocks|
    ensures InsertAll(r, InsertAll(r, t, blocks[..n]), blocks[n..]) == InsertAll(r, t, blocks)
    decreases n
  {
    hide Validate, Insert;
    if n == 0 {
      assert blocks[..0] == [] && blocks[0..] == blocks;
    } else {
      InsertAllSplit(r, Insert(r, t, blocks[0]).0, blocks[1..], n - 1);
      assert blocks[..n][1..] == blocks[1..][..n - 1] && blocks[1..][n - 1..] == blocks[n..];
    }
  }

  /**
   * Take any run of a node with storage in which every append succeeded, and let its log be cut at any byte. The next
   * start succeeds. It rebuilds a part of the tree the node had: the blocks whose records survived, with the same nodes,
   * on their best branch; and if nothing was cut off, exactly the old tree.
   */
  lemma NodeSurvivesCrash(a: AddrCodec, r: Rules, events: seq<Event>, k: nat, j: nat)
    requires AddrCodecSound(a) && SamplerSound(r)
    requires Always(r, Fresh(true), events, (w: NodeView) => ZeroFree(w.tree) && DiskWorks(w))
    requires ChecksumsTellPrefixes(r, Run(r, Fresh(true), events).log)
    requires k <= |LogText(r, Run(r, Fresh(true), events).log)| && Survive(r, Run(r, Fresh(true), events).log, k, j)
    ensures var v := Run(r, Fresh(true), events);
            var t := InsertAll(r, EMPTY, v.log[..j]);
            && Load(a, r, LogText(r, v.log)[..k]) == Ok(t)
            && WellFormed(r, t) && Linked(t) && ValidChain(r, BestChain(t))
            && Grows(t, v.tree)
            && (j == |v.log| ==> t == v.tree)
  {
    hide Validate, IsBetterTip, WellFormed, Insert, InsertAll, AllAccepted, AddrCodecSound, Load, LogText, Survive,
         ChecksumsTellPrefixes, SamplerSound, Always, Run, Linked;
    EmptyIsWellFormed(r);
    var v := Run(r, Fresh(true), events);
    FreshIsLogged(r);
    AlwaysImplies(r, Fresh(true), events, (w: NodeView) => ZeroFree(w.tree) && DiskWorks(w),
                  (w: NodeView) => ZeroFree(w.tree) && w.storageFailures == 0);
    RunIsLogged(r, EMPTY, 0, Fresh(true), events);
    CutLogReplays(a, r, v.log, k, j);
    SurviveLength(r, v.log, k, j);
    var t := InsertAll(r, EMPTY, v.log[..j]);
    InsertAllKeepsWellFormed(r, EMPTY, v.log[..j]);
    WellFormedIsLinked(r, t);
    BestChainFacts(r, t);
    InsertAllSplit(r, EMPTY, v.log, j);
    InsertAllKeepsWellFormed(r, t, v.log[j..]);
    if j == |v.log| {
      assert v.log[..j] == v.log;
    }
  }

  lemma FreshIsLogged(r: Rules)
    ensures LogReplays(r, EMPTY, 0, Fresh(true))
    ensures Fresh(true).storage && Fresh(true).tree == EMPTY
  {
  }
}

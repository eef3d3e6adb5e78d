/** Properties of whole runs of a node, over any interleaving of mining, gossip, sync batches and restarts. */
module NodeRuns {
  import opened Prelude
  import opened Domain
  import opened Validation
  import opened Training
  import opened ForkTree
  import opened Chain
  import opened ForkOrder
  import opened Node
  import opened TipOrder
  import opened Binding

  /** All state changes happen under one lock, so a run is a sequence of these. */
  datatype Event =
    | Mine(seed: u64, entropy: u64, disk: Disk)
    | Receive(block: Block, disk: Disk)
    | Batch(blocks: seq<Block>, disk: Disk)
    | Restart

  /**
   * One event. Mining that finds no nonce never returns; a restart on a log that does not replay is refused.
   */
  ghost function Step(r: Rules, v: NodeView, e: Event): NodeView
    requires WellFormed(r, v.tree)
  {
    match e
    case Mine(seed, entropy, disk) =>
      if BestHeight(v.tree) < TWO64 && Mined(r, BestContext(v.tree), seed, entropy, 0).Some? then
        AfterMining(r, v, Mined(r, BestContext(v.tree), seed, entropy, 0).value, disk)
      else v
    case Receive(block, disk) => Applied(r, v, block, Gossip, disk).0
    case Batch(blocks, disk) => SyncBatch(r, v, blocks, disk).0
    case Restart => if AllAccepted(r, EMPTY, v.log) then Restarted(r, v) else v
  }

  lemma StepKeepsTree(r: Rules, v: NodeView, e: Event)
    requires WellFormed(r, v.tree)
    ensures WellFormed(r, Step(r, v, e).tree)
    ensures !e.Restart? ==> Grows(v.tree, Step(r, v, e).tree)
  {
    hide Validate, IsBetterTip, WellFormed, Insert, Applied;
    match e
    case Mine(seed, entropy, disk) =>
      if BestHeight(v.tree) < TWO64 && Mined(r, BestContext(v.tree), seed, entropy, 0).Some? {
        var b := Mined(r, BestContext(v.tree), seed, entropy, 0).value;
        InsertKeepsWellFormed(r, v.tree, b);
        InsertGrows(r, v.tree, b);
      }
    case Receive(block, disk) => AppliedTree(r, v, block, Gossip, disk);
    case Batch(blocks, disk) =>
      if AllAccepted(r, v.tree, blocks) {
        CommittedBatch(r, v, blocks, disk);
      }
    case Restart => EmptyIsWellFormed(r); InsertAllKeepsWellFormed(r, EMPTY, v.log);
  }

  /** A node that has just been created. */
  function Fresh(storage: bool): NodeView {
    NodeView([], EMPTY, storage, [], 0, 0, 0, 0, 0, 0)
  }

  ghost function Run(r: Rules, v: NodeView, events: seq<Event>): NodeView
    requires WellFormed(r, v.tree)
    decreases |events|
  {
    if events == [] then v
    else
      StepKeepsTree(r, v, events[0]);
      Run(r, Step(r, v, events[0]), events[1..])
  }

  /** `p` holds of every state the run visits. */
  ghost predicate Always(r: Rules, v: NodeView, events: seq<Event>, p: NodeView -> bool)
    requires WellFormed(r, v.tree)
    decreases |events|
  {
    p(v) && (events == [] || (StepKeepsTree(r, v, events[0]); Always(r, Step(r, v, events[0]), events[1..], p)))
  }

  // ---------------------------------------------------------------- the view

  /** Every event leaves the active chain on the best branch of the tree. */
  lemma StepKeepsView(r: Rules, v: NodeView, e: Event)
    requires ViewIsBestBranch(r, v)
    requires WellFormed(r, Step(r, v, e).tree) && ZeroFree(Step(r, v, e).tree)
    ensures ViewIsBestBranch(r, Step(r, v, e))
  {
    hide Validate, IsBetterTip, WellFormed, Insert, Applied, ZeroFree;
    match e
    case Mine(seed, entropy, disk) =>
      if BestHeight(v.tree) < TWO64 && Mined(r, BestContext(v.tree), seed, entropy, 0).Some? {
        var b := Mined(r, BestContext(v.tree), seed, entropy, 0).value;
        WellFormedIsLinked(r, Insert(r, v.tree, b).0);
        ActivationAfterInsert(r, v, b);
      }
    case Receive(block, disk) =>
      AppliedTree(r, v, block, Gossip, disk);
      AppliedKeepsView(r, v, block, Gossip, disk);
    case Batch(blocks, disk) =>
      if AllAccepted(r, v.tree, blocks) {
        CommittedBatch(r, v, blocks, disk);
        CommittedKeepsView(r, v, blocks, disk);
      }
    case Restart =>
      if AllAccepted(r, EMPTY, v.log) {
        WellFormedIsLinked(r, InsertAll(r, EMPTY, v.log));
      }
  }

  /**
   * In every reachable state the active chain is the best branch of the block tree, whatever the interleaving, as long
   * as no known block hashes to the zero digest.
   */
  lemma {:induction false} ViewIsAlwaysBestBranch(r: Rules, v: NodeView, events: seq<Event>)
    requires ViewIsBestBranch(r, v)
    requires Always(r, v, events, (w: NodeView) => ZeroFree(w.tree))
    ensures ViewIsBestBranch(r, Run(r, v, events))
    decreases |events|
  {
    hide Validate, IsBetterTip, WellFormed, Step, ZeroFree;
    if events != [] {
      StepKeepsTree(r, v, events[0]);
      var w := Step(r, v, events[0]);
      assert ZeroFree(w.tree);
      StepKeepsView(r, v, events[0]);
      ViewIsAlwaysBestBranch(r, w, events[1..]);
    }
  }

  // ---------------------------------------------------------------- reorgs

  /** One if the step counts: it leaves the branch, or, unless `plain`, skips ahead on it. */
  ghost function Counted(plain: bool, old': seq<Block>, new': seq<Block>): nat {
    if LeavesBranch(old', new') || (!plain && SkipsAhead(old', new')) then 1 else 0
  }

  /** How many steps of a batch count. */
  ghost function BatchReorgs(r: Rules, v: NodeView, blocks: seq<Block>, disk: Disk, plain: bool): nat
    requires WellFormed(r, v.tree)
    decreases |blocks|
  {
    if blocks == [] then 0
    else
      AppliedTree(r, v, blocks[0], Sync, disk);
      var w := Applied(r, v, blocks[0], Sync, disk).0;
      Counted(plain, v.chain, w.chain) + BatchReorgs(r, w, blocks[1..], disk, plain)
  }

  /** How many single-block steps since the last restart count, on top of `before`. */
  ghost function ReorgsSince(r: Rules, v: NodeView, events: seq<Event>, before: nat, plain: bool): nat
    requires WellFormed(r, v.tree)
    decreases |events|
  {
    if events == [] then before
    else
      StepKeepsTree(r, v, events[0]);
      var e, w := events[0], Step(r, v, events[0]);
      var now :=
        match e
        case Restart => if AllAccepted(r, EMPTY, v.log) then 0 else before
        case Batch(blocks, disk) =>
          if AllAccepted(r, v.tree, blocks) then before + BatchReorgs(r, v, blocks, disk, plain) else before
        case _ => before + Counted(plain, v.chain, w.chain);
      ReorgsSince(r, w, events[1..], now, plain)
  }

  lemma ScoresFitBefore(r: Rules, t: Tree, u: Tree)
    requires Grows(t, u) && ScoresFit(r, u)
    ensures ScoresFit(r, t)
  {
  }

  /** One block: what counts is counted. */
  lemma CountOne(r: Rules, v: NodeView, b: Block, source: BlockSource, disk: Disk, plain: bool)
    requires ViewIsBestBranch(r, v) && ZeroFree(Insert(r, v.tree, b).0)
    requires plain ==> ScoresFit(r, v.tree)
    ensures Applied(r, v, b, source, disk).0.reorgs
            == v.reorgs + Counted(plain, v.chain, Applied(r, v, b, source, disk).0.chain)
  {
    hide Validate, IsBetterTip, WellFormed, Insert, Applied, ScoresFit;
    ReorgCountIsExact(r, v, b, source, disk);
    if plain {
      NoSkipBeforeWrap(r, v, b, source, disk);
    }
  }

  lemma {:induction false} BatchReorgsAreCounted(r: Rules, v: NodeView, blocks: seq<Block>, disk: Disk, plain: bool)
    requires ViewIsBestBranch(r, v) && AllAccepted(r, v.tree, blocks)
    requires ZeroFree(InsertAll(r, v.tree, blocks))
    requires plain ==> ScoresFit(r, InsertAll(r, v.tree, blocks))
    ensures Committed(r, v, blocks, disk).reorgs == v.reorgs + BatchReorgs(r, v, blocks, disk, plain)
    decreases |blocks|
  {
    hide Validate, IsBetterTip, WellFormed, Insert, Applied, ScoresFit, Counted;
    if blocks != [] {
      var w := Applied(r, v, blocks[0], Sync, disk).0;
      AppliedTree(r, v, blocks[0], Sync, disk);
      InsertAllKeepsWellFormed(r, w.tree, blocks[1..]);
      if plain {
        ScoresFitBefore(r, v.tree, InsertAll(r, v.tree, blocks));
      }
      AppliedKeepsView(r, v, blocks[0], Sync, disk);
      CountOne(r, v, blocks[0], Sync, disk, plain);
      BatchReorgsAreCounted(r, w, blocks[1..], disk, plain);
    }
  }

  /** Mining never leaves the old active chain and never skips ahead. */
  lemma MiningNeverReorgs(r: Rules, v: NodeView, b: Block, disk: Disk)
    requires ViewIsBestBranch(r, v) && ZeroFree(v.tree)
    requires ZeroFree(Insert(r, v.tree, b).0)
    requires b.header.previousBlock == BestHash(v.tree)
    ensures v.chain <= AfterMining(r, v, b, disk).chain
    ensures |AfterMining(r, v, b, disk).chain| <= |v.chain| + 1
    ensures AfterMining(r, v, b, disk).reorgs == v.reorgs
  {
    hide Validate, IsBetterTip, WellFormed, Insert;
    InsertKeepsWellFormed(r, v.tree, b);
    WellFormedIsLinked(r, Insert(r, v.tree, b).0);
    ActivationAfterInsert(r, v, b);
    BestChainAfterInsert(r, v.tree, b);
    HeadIsBestTip(r, v);
  }

  lemma StepReorgs(r: Rules, v: NodeView, e: Event, plain: bool)
    requires ViewIsBestBranch(r, v) && ZeroFree(v.tree)
    requires WellFormed(r, Step(r, v, e).tree)
    requires ZeroFree(Step(r, v, e).tree)
    requires plain ==> ScoresFit(r, Step(r, v, e).tree)
    ensures ReorgsSince(r, v, [e], v.reorgs, plain) == Step(r, v, e).reorgs
  {
    hide Validate, IsBetterTip, WellFormed, Insert, Applied, ScoresFit, ZeroFree;
    assert [e][1..] == [];
    match e
    case Mine(seed, entropy, disk) =>
      if BestHeight(v.tree) < TWO64 && Mined(r, BestContext(v.tree), seed, entropy, 0).Some? {
        var b := Mined(r, BestContext(v.tree), seed, entropy, 0).value;
        MinedIsCandidate(r, BestContext(v.tree), seed, entropy, 0);
        MiningNeverReorgs(r, v, b, disk);
      }
    case Receive(block, disk) =>
      AppliedTree(r, v, block, Gossip, disk);
      if plain {
        ScoresFitBefore(r, v.tree, Step(r, v, e).tree);
      }
      CountOne(r, v, block, Gossip, disk, plain);
    case Batch(blocks, disk) =>
      if AllAccepted(r, v.tree, blocks) {
        CommittedBatch(r, v, blocks, disk);
        BatchReorgsAreCounted(r, v, blocks, disk, plain);
      }
    case Restart =>
  }

  lemma ViewIsWellFormed(r: Rules, v: NodeView)
    requires ViewIsBestBranch(r, v)
    ensures WellFormed(r, v.tree)
  {
  }

  lemma {:induction false} RunReorgs(r: Rules, v: NodeView, events: seq<Event>, plain: bool)
    requires ViewIsBestBranch(r, v)
    requires Always(r, v, events, (w: NodeView) => ZeroFree(w.tree) && (plain ==> ScoresFit(r, w.tree)))
    ensures Run(r, v, events).reorgs == ReorgsSince(r, v, events, v.reorgs, plain)
    decreases |events|
  {
    hide ViewIsBestBranch, Counted, Validate, IsBetterTip, WellFormed, Step, ZeroFree, ScoresFit;
    ViewIsWellFormed(r, v);
    if events != [] {
      StepKeepsTree(r, v, events[0]);
      var w := Step(r, v, events[0]);
      assert ZeroFree(w.tree) && (plain ==> ScoresFit(r, w.tree));
      StepKeepsView(r, v, events[0]);
      StepReorgs(r, v, events[0], plain);
      assert [events[0]][1..] == [];
      RunReorgs(r, w, events[1..], plain);
    }
  }

  /** A predicate that implies another at every state of a run. */
  lemma {:induction false} AlwaysImplies(r: Rules, v: NodeView, events: seq<Event>, p: NodeView -> bool, q: NodeView -> bool)
    requires WellFormed(r, v.tree) && Always(r, v, events, p)
    requires forall w :: p(w) ==> q(w)
    ensures Always(r, v, events, q)
    decreases |events|
  {
    hide Validate, IsBetterTip, WellFormed, Step;
    if events != [] {
      StepKeepsTree(r, v, events[0]);
      AlwaysImplies(r, Step(r, v, events[0]), events[1..], p, q);
    }
  }

  /**
   * What the `reorgs` counter is over any run: the number of blocks, since the last restart, after which the old
   * non-empty active chain was no longer a prefix of the active chain, or was one but more than one block shorter.
   */
  lemma ReorgsAreCountedExactly(r: Rules, v: NodeView, events: seq<Event>)
    requires ViewIsBestBranch(r, v)
    requires Always(r, v, events, (w: NodeView) => ZeroFree(w.tree))
    ensures Run(r, v, events).reorgs == ReorgsSince(r, v, events, v.reorgs, false)
  {
    hide Validate, IsBetterTip, WellFormed, Step, ZeroFree, ScoresFit, Run;
    AlwaysImplies(r, v, events, (w: NodeView) => ZeroFree(w.tree),
                  (w: NodeView) => ZeroFree(w.tree) && (false ==> ScoresFit(r, w.tree)));
    RunReorgs(r, v, events, false);
  }

  /** While scores fit, only the steps that leave a branch count: `reorgs` is the number of reorganisations. */
  lemma ReorgsAreBranchSwitches(r: Rules, v: NodeView, events: seq<Event>)
    requires ViewIsBestBranch(r, v)
    requires Always(r, v, events, (w: NodeView) => ZeroFree(w.tree) && ScoresFit(r, w.tree))
    ensures Run(r, v, events).reorgs == ReorgsSince(r, v, events, v.reorgs, true)
  {
    hide Validate, IsBetterTip, WellFormed, Step, ZeroFree, ScoresFit, Run;
    AlwaysImplies(r, v, events, (w: NodeView) => ZeroFree(w.tree) && ScoresFit(r, w.tree),
                  (w: NodeView) => ZeroFree(w.tree) && (true ==> ScoresFit(r, w.tree)));
    RunReorgs(r, v, events, true);
  }

  // ---------------------------------------------------------------- the log

  /** If no append has failed since the failures were `f`, the log since then leads from `base` to the tree. */
  ghost predicate LogReplays(r: Rules, base: Tree, f: nat, v: NodeView) {
    && v.storageFailures >= f
    && (v.storage && v.storageFailures == f ==>
          AllAccepted(r, base, v.log) && InsertAll(r, base, v.log) == v.tree)
  }

  lemma InsertedIsLogged(r: Rules, base: Tree, f: nat, v: NodeView, w: NodeView, b: Block, appended: bool)
    requires LogReplays(r, base, f, v)
    requires Insert(r, v.tree, b).1.Ok?
    requires w.tree == Insert(r, v.tree, b).0 && w.storage == v.storage
    requires w.log == Persisted(v, b, appended).log && w.storageFailures == Persisted(v, b, appended).storageFailures
    ensures LogReplays(r, base, f, w)
    ensures v.log <= w.log
  {
    hide Validate, Insert;
    if w.storage && w.storageFailures == f {
      InsertAllAppend(r, base, v.log, b);
      AllAcceptedAppend(r, base, v.log, b);
    }
  }

  lemma AppliedIsLogged(r: Rules, base: Tree, f: nat, v: NodeView, b: Block, source: BlockSource, disk: Disk)
    requires WellFormed(r, v.tree) && LogReplays(r, base, f, v)
    ensures LogReplays(r, base, f, Applied(r, v, b, source, disk).0)
    ensures v.log <= Applied(r, v, b, source, disk).0.log
  {
    hide Validate, IsBetterTip, WellFormed, Insert, LogReplays;
    var w := Applied(r, v, b, source, disk).0;
    AppliedTree(r, v, b, source, disk);
    if Applied(r, v, b, source, disk).1 == Accepted {
      InsertedIsLogged(r, base, f, v, w, b, disk(BlockHash(r, b)));
    } else {
      NotAppliedLog(r, base, f, v, b, source, disk);
    }
  }

  lemma NotAppliedLog(r: Rules, base: Tree, f: nat, v: NodeView, b: Block, source: BlockSource, disk: Disk)
    requires WellFormed(r, v.tree) && LogReplays(r, base, f, v)
    requires Applied(r, v, b, source, disk).1 != Accepted
    ensures LogReplays(r, base, f, Applied(r, v, b, source, disk).0)
    ensures v.log <= Applied(r, v, b, source, disk).0.log
  {
    hide Validate, IsBetterTip, WellFormed;
  }

  lemma {:induction false} CommittedIsLogged(r: Rules, base: Tree, f: nat, v: NodeView, blocks: seq<Block>, disk: Disk)
    requires WellFormed(r, v.tree) && LogReplays(r, base, f, v)
    ensures LogReplays(r, base, f, Committed(r, v, blocks, disk))
    ensures v.log <= Committed(r, v, blocks, disk).log
    decreases |blocks|
  {
    hide Validate, IsBetterTip, WellFormed, Insert, Applied, LogReplays;
    if blocks != [] {
      AppliedTree(r, v, blocks[0], Sync, disk);
      AppliedIsLogged(r, base, f, v, blocks[0], Sync, disk);
      CommittedIsLogged(r, base, f, Applied(r, v, blocks[0], Sync, disk).0, blocks[1..], disk);
    }
  }

  lemma StepIsLogged(r: Rules, base: Tree, f: nat, v: NodeView, e: Event)
    requires WellFormed(r, v.tree) && LogReplays(r, base, f, v)
    requires SamplerSound(r) && ZeroFree(v.tree)
    requires e.Restart? ==> base == EMPTY && f == 0
    ensures LogReplays(r, base, f, Step(r, v, e))
    ensures v.log <= Step(r, v, e).log
  {
    hide Validate, IsBetterTip, WellFormed, Insert, Applied;
    match e
    case Mine(seed, entropy, disk) =>
      if BestHeight(v.tree) < TWO64 && Mined(r, BestContext(v.tree), seed, entropy, 0).Some? {
        var b := Mined(r, BestContext(v.tree), seed, entropy, 0).value;
        BestTipKnown(r, v.tree);
        MinedInsertFailsExactly(r, v.tree, seed, entropy);
        InsertedIsLogged(r, base, f, v, AfterMining(r, v, b, disk), b, disk(BlockHash(r, b)));
      }
    case Receive(block, disk) => AppliedIsLogged(r, base, f, v, block, Gossip, disk);
    case Batch(blocks, disk) => CommittedIsLogged(r, base, f, v, blocks, disk);
    case Restart =>
  }

  /** No append has failed since the counters were reset. */
  predicate DiskWorks(v: NodeView) {
    v.storageFailures == 0
  }

  /**
   * As long as every append of the run has succeeded, a restart is not refused and brings back the same tree, best tip
   * and active chain, in every reachable state; the counters start again.
   */
  lemma RestartRestoresState(r: Rules, storage: bool, events: seq<Event>)
    requires SamplerSound(r)
    requires Always(r, Fresh(storage), events, (w: NodeView) => ZeroFree(w.tree) && DiskWorks(w))
    requires storage
    ensures var v := Run(r, Fresh(storage), events);
            && WellFormed(r, v.tree)
            && AllAccepted(r, EMPTY, v.log)
            && Restarted(r, v).tree == v.tree
            && Restarted(r, v).chain == v.chain
            && Restarted(r, v) == Fresh(storage).(tree := v.tree, chain := v.chain, log := v.log)
  {
    hide Validate, IsBetterTip, WellFormed, Insert;
    EmptyIsWellFormed(r);
    AlwaysImplies(r, Fresh(storage), events, (w: NodeView) => ZeroFree(w.tree) && DiskWorks(w),
                  (w: NodeView) => ZeroFree(w.tree) && w.storageFailures == 0);
    RunIsLogged(r, EMPTY, 0, Fresh(storage), events);
    AlwaysImplies(r, Fresh(storage), events, (w: NodeView) => ZeroFree(w.tree) && DiskWorks(w),
                  (w: NodeView) => ZeroFree(w.tree));
    ViewIsAlwaysBestBranch(r, Fresh(storage), events);
  }

  /** A run in which every append succeeds keeps the log in step with the tree, from whatever tree the log started. */
  lemma {:induction false} RunIsLogged(r: Rules, base: Tree, f: nat, v: NodeView, events: seq<Event>)
    requires WellFormed(r, v.tree) && LogReplays(r, base, f, v)
    requires SamplerSound(r)
    requires (base == EMPTY && f == 0) || forall i :: 0 <= i < |events| ==> !events[i].Restart?
    requires Always(r, v, events, (w: NodeView) => ZeroFree(w.tree) && w.storageFailures == f)
    ensures var w := Run(r, v, events);
            && w.storageFailures == f && w.storage == v.storage && v.log <= w.log
            && LogReplays(r, base, f, w)
    decreases |events|
  {
    hide Validate, IsBetterTip, WellFormed, Step, LogReplays, SamplerSound;
    if events != [] {
      StepKeepsTree(r, v, events[0]);
      StepIsLogged(r, base, f, v, events[0]);
      StepKeepsStorage(r, v, events[0]);
      RunIsLogged(r, base, f, Step(r, v, events[0]), events[1..]);
    }
  }

  lemma {:induction false} CommittedKeepsStorage(r: Rules, v: NodeView, blocks: seq<Block>, disk: Disk)
    requires WellFormed(r, v.tree)
    ensures Committed(r, v, blocks, disk).storage == v.storage
    decreases |blocks|
  {
    hide Validate, IsBetterTip, WellFormed, Insert;
    if blocks != [] {
      AppliedTree(r, v, blocks[0], Sync, disk);
      CommittedKeepsStorage(r, Applied(r, v, blocks[0], Sync, disk).0, blocks[1..], disk);
    }
  }

  lemma StepKeepsStorage(r: Rules, v: NodeView, e: Event)
    requires WellFormed(r, v.tree)
    ensures Step(r, v, e).storage == v.storage
  {
    hide Validate, IsBetterTip, WellFormed, Insert;
    if e.Batch? {
      CommittedKeepsStorage(r, v, e.blocks, e.disk);
    }
  }

  // ---------------------------------------------------------------- when appends fail

  /** If the event mines a block that is already known by its hash, the two do not collide. */
  ghost predicate MinesCleanly(r: Rules, t: Tree, e: Event) {
    e.Mine? && BestHeight(t) < TWO64 ==>
      var mined := Mined(r, BestContext(t), e.seed, e.entropy, 0);
      mined.Some? && BlockHash(r, mined.value) in t.nodes ==>
        !Collide(r, mined.value, t.nodes[BlockHash(r, mined.value)].block)
  }

  /** No state of the run knows a block that hashes to zero, and no block the run mines collides with a known one. */
  ghost predicate CleanlyMined(r: Rules, v: NodeView, events: seq<Event>)
    requires WellFormed(r, v.tree)
    decreases |events|
  {
    && ZeroFree(v.tree)
    && (events == []
        || (StepKeepsTree(r, v, events[0]);
            MinesCleanly(r, v.tree, events[0]) && CleanlyMined(r, Step(r, v, events[0]), events[1..])))
  }

  lemma AllFromGrows(r: Rules, t: Tree, u: Tree, blocks: seq<Block>)
    requires AllFrom(r, t, blocks) && Grows(t, u)
    ensures AllFrom(r, u, blocks)
  {
  }

  lemma AllFromAppend(r: Rules, t: Tree, blocks: seq<Block>, b: Block)
    requires AllFrom(r, t, blocks) && BlockHash(r, b) in t.nodes && t.nodes[BlockHash(r, b)].block == b
    ensures AllFrom(r, t, blocks + [b])
  {
    hide BlockHash;
  }

  lemma NewNodeHolds(r: Rules, t: Tree, b: Block)
    requires BlockHash(r, b) !in t.nodes && Insert(r, t, b).1.Ok?
    ensures BlockHash(r, b) in Insert(r, t, b).0.nodes && Insert(r, t, b).0.nodes[BlockHash(r, b)].block == b
  {
    hide Validate, IsBetterTip;
  }

  lemma AppliedLogKnown(r: Rules, v: NodeView, b: Block, source: BlockSource, disk: Disk)
    requires WellFormed(r, v.tree) && AllFrom(r, v.tree, v.log)
    ensures AllFrom(r, Applied(r, v, b, source, disk).0.tree, Applied(r, v, b, source, disk).0.log)
  {
    hide Validate, IsBetterTip, WellFormed, Insert, AllFrom;
    AppliedTree(r, v, b, source, disk);
    AppliedCases(r, v, b, source, disk);
    AllFromGrows(r, v.tree, Applied(r, v, b, source, disk).0.tree, v.log);
    if BlockHash(r, b) !in v.tree.nodes && Insert(r, v.tree, b).1.Ok? {
      NewNodeHolds(r, v.tree, b);
      AllFromAppend(r, Insert(r, v.tree, b).0, v.log, b);
    }
  }

  lemma {:induction false} CommittedLogKnown(r: Rules, v: NodeView, blocks: seq<Block>, disk: Disk)
    requires WellFormed(r, v.tree) && AllFrom(r, v.tree, v.log)
    ensures AllFrom(r, Committed(r, v, blocks, disk).tree, Committed(r, v, blocks, disk).log)
    decreases |blocks|
  {
    hide Validate, IsBetterTip, WellFormed, Insert, Applied, AllFrom;
    if blocks != [] {
      AppliedTree(r, v, blocks[0], Sync, disk);
      AppliedLogKnown(r, v, blocks[0], Sync, disk);
      CommittedLogKnown(r, Applied(r, v, blocks[0], Sync, disk).0, blocks[1..], disk);
    }
  }

  /** A mined block that is already known is the known block. */
  lemma MinedIsKnown(r: Rules, t: Tree, seed: u64, entropy: u64, disk: Disk)
    requires WellFormed(r, t) && SamplerSound(r) && ZeroFree(t) && BestHeight(t) < TWO64
    requires MinesCleanly(r, t, Mine(seed, entropy, disk))
    requires Mined(r, BestContext(t), seed, entropy, 0).Some?
    ensures var b, u := Mined(r, BestContext(t), seed, entropy, 0).value,
                        Insert(r, t, Mined(r, BestContext(t), seed, entropy, 0).value).0;
            BlockHash(r, b) in u.nodes && u.nodes[BlockHash(r, b)].block == b
  {
    hide Validate, IsBetterTip, Collide, Insert;
    var b := Mined(r, BestContext(t), seed, entropy, 0).value;
    var h := BlockHash(r, b);
    BestTipKnown(r, t);
    MinedInsertFailsExactly(r, t, seed, entropy);
    MinedBlockIsValid(r, BestContext(t), seed, entropy);
    InsertGrows(r, t, b);
    if h in t.nodes {
      assert NodeOk(r, t, h);
      BlockHashBindsBlock(r, BestContext(t), b, ContextFor(t, t.nodes[h].block).value, t.nodes[h].block);
    } else {
      NewNodeHolds(r, t, b);
    }
  }

  /** Whatever the disk does, everything in the log is a block of the tree. */
  lemma StepLogKnown(r: Rules, v: NodeView, e: Event)
    requires WellFormed(r, v.tree) && AllFrom(r, v.tree, v.log)
    requires SamplerSound(r) && ZeroFree(v.tree) && MinesCleanly(r, v.tree, e)
    ensures AllFrom(r, Step(r, v, e).tree, Step(r, v, e).log)
  {
    hide Validate, IsBetterTip, WellFormed, Insert, Applied, AllFrom, MinesCleanly, SamplerSound;
    match e
    case Mine(seed, entropy, disk) =>
      if BestHeight(v.tree) < TWO64 && Mined(r, BestContext(v.tree), seed, entropy, 0).Some? {
        var b := Mined(r, BestContext(v.tree), seed, entropy, 0).value;
        MinedIsKnown(r, v.tree, seed, entropy, disk);
        InsertGrows(r, v.tree, b);
        AllFromGrows(r, v.tree, Insert(r, v.tree, b).0, v.log);
        AllFromAppend(r, Insert(r, v.tree, b).0, v.log, b);
      }
    case Receive(block, disk) => AppliedLogKnown(r, v, block, Gossip, disk);
    case Batch(blocks, disk) => CommittedLogKnown(r, v, blocks, disk);
    case Restart =>
      if AllAccepted(r, EMPTY, v.log) {
        ReplayedPart(r, v.tree, v.log);
      }
  }

  /** A log of known blocks replays to a part of the tree. */
  lemma ReplayedPart(r: Rules, t: Tree, log: seq<Block>)
    requires WellFormed(r, t) && AllFrom(r, t, log) && AllAccepted(r, EMPTY, log)
    ensures Grows(InsertAll(r, EMPTY, log), t)
    ensures AllFrom(r, InsertAll(r, EMPTY, log), log)
  {
    hide Validate, IsBetterTip, Insert, NodeOk;
    KnownBlocksAcceptedExactly(r, t, log);
    RebuildPrefix(r, t, log, |log|);
    assert log[..|log|] == log;
  }

  /**
   * Restarts when appends may fail, without writing anything. In every reachable state a restart is refused exactly if
   * the log names a block before, or without, its parent; and if it is not refused, it brings back a part of the tree.
   */
  lemma RestartRefusedExactly(r: Rules, storage: bool, events: seq<Event>)
    requires SamplerSound(r)
    requires CleanlyMined(r, Fresh(storage), events)
    ensures var v := Run(r, Fresh(storage), events);
            && WellFormed(r, v.tree)
            && (AllAccepted(r, EMPTY, v.log) <==> ParentsFirst(r, v.log))
            && (AllAccepted(r, EMPTY, v.log) ==> Grows(Step(r, v, Restart).tree, v.tree))
  {
    hide Validate, IsBetterTip, WellFormed, Insert, Run, CleanlyMined, AllAccepted, ParentsFirst;
    EmptyIsWellFormed(r);
    FreshLogKnown(r, storage);
    RunLogKnown(r, Fresh(storage), events);
    var v := Run(r, Fresh(storage), events);
    TreeNodesOk(r, v.tree);
    KnownBlocksAcceptedExactly(r, v.tree, v.log);
    if AllAccepted(r, EMPTY, v.log) {
      ReplayedPart(r, v.tree, v.log);
    }
  }

  lemma FreshLogKnown(r: Rules, storage: bool)
    ensures AllFrom(r, Fresh(storage).tree, Fresh(storage).log) && Fresh(storage).tree == EMPTY
  {
  }

  lemma TreeNodesOk(r: Rules, t: Tree)
    requires WellFormed(r, t)
    ensures NodesOk(r, t)
  {
    hide NodesOk;
  }

  lemma {:induction false} RunLogKnown(r: Rules, v: NodeView, events: seq<Event>)
    requires WellFormed(r, v.tree) && AllFrom(r, v.tree, v.log) && SamplerSound(r)
    requires CleanlyMined(r, v, events)
    ensures WellFormed(r, Run(r, v, events).tree)
    ensures AllFrom(r, Run(r, v, events).tree, Run(r, v, events).log)
    decreases |events|
  {
    hide Validate, IsBetterTip, WellFormed, Step, AllFrom, SamplerSound, MinesCleanly;
    if events != [] {
      StepKeepsTree(r, v, events[0]);
      StepLogKnown(r, v, events[0]);
      RunLogKnown(r, Step(r, v, events[0]), events[1..]);
    }
  }

  // ---------------------------------------------------------------- conservation

  /** Blocks counted as taken in, less blocks logged and appends that failed. */
  function Tally(v: NodeView): int {
    v.accepted + v.synced + v.mined - |v.log| - v.storageFailures
  }

  lemma AppliedTally(r: Rules, v: NodeView, b: Block, source: BlockSource, disk: Disk)
    requires WellFormed(r, v.tree) && v.storage
    ensures Tally(Applied(r, v, b, source, disk).0) == Tally(v)
    ensures Applied(r, v, b, source, disk).0.storage
  {
    hide Validate, IsBetterTip, WellFormed, Insert, Applied, Activated, Persisted, Linked, HeadHash, BlockHash;
    AppliedCases(r, v, b, source, disk);
    var t := Insert(r, v.tree, b).0;
    PersistenceCounts(v.(tree := t), b, disk(BlockHash(r, b)));
    ActivationChangesChainOnly(r, Persisted(v.(tree := t), b, disk(BlockHash(r, b))));
  }

  lemma {:induction false} CommittedTally(r: Rules, v: NodeView, blocks: seq<Block>, disk: Disk)
    requires WellFormed(r, v.tree) && v.storage
    ensures Tally(Committed(r, v, blocks, disk)) == Tally(v)
    decreases |blocks|
  {
    hide Validate, IsBetterTip, WellFormed, Insert, Applied, Tally;
    if blocks != [] {
      AppliedTree(r, v, blocks[0], Sync, disk);
      AppliedTally(r, v, blocks[0], Sync, disk);
      CommittedTally(r, Applied(r, v, blocks[0], Sync, disk).0, blocks[1..], disk);
    }
  }

  lemma MiningTally(r: Rules, v: NodeView, b: Block, disk: Disk)
    requires WellFormed(r, v.tree) && v.storage
    ensures Tally(AfterMining(r, v, b, disk)) == Tally(v)
    ensures AfterMining(r, v, b, disk).mined == v.mined + 1
  {
    hide Validate, IsBetterTip, WellFormed, Insert, Activated, Persisted, Linked, BlockHash;
    InsertKeepsWellFormed(r, v.tree, b);
    WellFormedIsLinked(r, Insert(r, v.tree, b).0);
    var w := v.(tree := Insert(r, v.tree, b).0);
    ActivationChangesChainOnly(r, w);
    PersistenceCounts(Activated(r, w), b, disk(BlockHash(r, b)));
  }

  lemma StepTally(r: Rules, v: NodeView, e: Event)
    requires WellFormed(r, v.tree) && v.storage && !e.Restart?
    ensures Tally(Step(r, v, e)) == Tally(v)
  {
    hide Validate, IsBetterTip, WellFormed, Insert, Applied, Tally, AfterMining, Committed, AllAccepted;
    match e
    case Mine(seed, entropy, disk) =>
      if BestHeight(v.tree) < TWO64 && Mined(r, BestContext(v.tree), seed, entropy, 0).Some? {
        MiningTally(r, v, Mined(r, BestContext(v.tree), seed, entropy, 0).value, disk);
      }
    case Receive(block, disk) => AppliedTally(r, v, block, Gossip, disk);
    case Batch(blocks, disk) =>
      if AllAccepted(r, v.tree, blocks) {
        CommittedTally(r, v, blocks, disk);
      }
  }

  /**
   * Conservation. Over any run between restarts of a node with storage, the blocks counted as accepted, synced and mined
   * are as many as the records logged and the appends that failed.
   */
  lemma {:induction false} CountersAddUp(r: Rules, v: NodeView, events: seq<Event>)
    requires WellFormed(r, v.tree) && v.storage
    requires forall i :: 0 <= i < |events| ==> !events[i].Restart?
    ensures var w := Run(r, v, events);
            (w.accepted - v.accepted) + (w.synced - v.synced) + (w.mined - v.mined)
            == (|w.log| - |v.log|) + (w.storageFailures - v.storageFailures)
    decreases |events|
  {
    hide Validate, IsBetterTip, WellFormed, Step;
    if events != [] {
      StepKeepsTree(r, v, events[0]);
      StepKeepsStorage(r, v, events[0]);
      StepTally(r, v, events[0]);
      CountersAddUp(r, Step(r, v, events[0]), events[1..]);
    }
  }

  // ---------------------------------------------------------------- height

  lemma {:induction false} CommittedNeverShortens(r: Rules, v: NodeView, blocks: seq<Block>, disk: Disk)
    requires ViewIsBestBranch(r, v) && AllAccepted(r, v.tree, blocks)
    requires ZeroFree(InsertAll(r, v.tree, blocks))
    ensures |Committed(r, v, blocks, disk).chain| >= |v.chain|
    decreases |blocks|
  {
    hide Validate, IsBetterTip, WellFormed, Insert, Applied;
    if blocks != [] {
      var w := Applied(r, v, blocks[0], Sync, disk).0;
      AppliedTree(r, v, blocks[0], Sync, disk);
      InsertAllKeepsWellFormed(r, w.tree, blocks[1..]);
      AppliedKeepsView(r, v, blocks[0], Sync, disk);
      HeightNeverDecreases(r, v, blocks[0], Sync, disk);
      CommittedNeverShortens(r, w, blocks[1..], disk);
    }
  }

  /** Between restarts the active height never goes down. */
  lemma StepNeverShortens(r: Rules, v: NodeView, e: Event)
    requires ViewIsBestBranch(r, v) && ZeroFree(v.tree) && !e.Restart?
    requires WellFormed(r, Step(r, v, e).tree)
    requires ZeroFree(Step(r, v, e).tree)
    ensures |Step(r, v, e).chain| >= |v.chain|
  {
    hide Validate, IsBetterTip, WellFormed, Insert, Applied, ZeroFree;
    match e
    case Mine(seed, entropy, disk) =>
      if BestHeight(v.tree) < TWO64 && Mined(r, BestContext(v.tree), seed, entropy, 0).Some? {
        var b := Mined(r, BestContext(v.tree), seed, entropy, 0).value;
        MinedIsCandidate(r, BestContext(v.tree), seed, entropy, 0);
        MiningNeverReorgs(r, v, b, disk);
      }
    case Receive(block, disk) =>
      AppliedTree(r, v, block, Gossip, disk);
      HeightNeverDecreases(r, v, block, Gossip, disk);
    case Batch(blocks, disk) =>
      if AllAccepted(r, v.tree, blocks) {
        CommittedBatch(r, v, blocks, disk);
        CommittedNeverShortens(r, v, blocks, disk);
      }
  }

  /** Between restarts the active height never goes down, over any run and whether scores wrap or not. */
  lemma {:induction false} HeightNeverFalls(r: Rules, v: NodeView, events: seq<Event>)
    requires ViewIsBestBranch(r, v)
    requires Always(r, v, events, (w: NodeView) => ZeroFree(w.tree))
    requires forall i :: 0 <= i < |events| ==> !events[i].Restart?
    ensures |Run(r, v, events).chain| >= |v.chain|
    decreases |events|
  {
    hide Validate, IsBetterTip, WellFormed, Step, ZeroFree;
    if events != [] {
      StepKeepsTree(r, v, events[0]);
      var w := Step(r, v, events[0]);
      assert ZeroFree(w.tree);
      StepKeepsView(r, v, events[0]);
      StepNeverShortens(r, v, events[0]);
      HeightNeverFalls(r, w, events[1..]);
    }
  }
}

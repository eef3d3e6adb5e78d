/**
 * Runs of a node together with the text of its log file, and with crashes: a crash cuts the file at any place and the
 * node starts again from what is left.
 */
module FileRuns {
  import opened Prelude
  import opened Domain
  import opened Validation
  import opened Training
  import opened ForkTree
  import opened ForkOrder
  import opened Chain
  import opened Node
  import opened TipOrder
  import opened NodeRuns
  import opened Wire
  import opened Storage
  import opened LogRecovery
  import opened LogAppend

  /** A node that is up, or one whose file was refused; nothing happens to the latter without an operator. */
  datatype FileNode = Up(view: NodeView, file: string) | Down(file: string, error: LoadError)

  /**
   * A live event, a crash, or a block that is received or mined but whose append fails after `written` characters.
   */
  datatype FileEvent =
    | Live(event: Event)
    | Crash(k: nat)
    | FailedReceive(block: Block, written: nat)
    | FailedMine(seed: u64, entropy: u64, written: nat)

  /** An append that fails after `written` characters. */
  function FailedAppend(r: Rules, file: string, b: Block, written: nat): string {
    var all := Append(r, file, b);
    if |file| + written <= |all| then all[..|file| + written] else all
  }

  const FAILS: Disk := hash => false

  /** The block that a failing event would have appended. */
  function Attempted(r: Rules, v: NodeView, e: FileEvent): Option<Block> {
    match e
    case FailedReceive(b, _) =>
      if BlockHash(r, b) !in v.tree.nodes && Insert(r, v.tree, b).1.Ok? then Some(b) else None
    case FailedMine(seed, entropy, _) =>
      if BestHeight(v.tree) < TWO64 then Mined(r, BestContext(v.tree), seed, entropy, 0) else None
    case _ => None
  }

  /** A failing event as an event of the node. */
  function AsEvent(e: FileEvent): Event {
    match e
    case Live(event) => event
    case Crash(_) => Restart
    case FailedReceive(b, _) => Receive(b, FAILS)
    case FailedMine(seed, entropy, _) => Mine(seed, entropy, FAILS)
  }

  lemma {:induction false} ReplayKeepsWellFormed(
      a: AddrCodec, r: Rules, lines: seq<string>, complete: bool, seenHeader: bool, seenBlock: bool, t: Tree)
    requires WellFormed(r, t)
    ensures var result := Replay(a, r, lines, complete, seenHeader, seenBlock, t);
            result.Ok? ==> WellFormed(r, result.value)
    decreases |lines|
  {
    hide Validate, IsBetterTip, WellFormed, Insert, DecodeLine, Blank;
    if lines != [] {
      if Blank(lines[0]) {
        ReplayKeepsWellFormed(a, r, lines[1..], complete, seenHeader, seenBlock, t);
      } else {
        match DecodeLine(a, r, lines[0])
        case Some(Header(f)) => ReplayKeepsWellFormed(a, r, lines[1..], complete, true, seenBlock, t);
        case Some(Record(b)) =>
          InsertKeepsWellFormed(r, t, b);
          ReplayKeepsWellFormed(a, r, lines[1..], complete, seenHeader, true, Insert(r, t, b).0);
        case None =>
      }
    }
  }

  lemma LoadedIsWellFormed(a: AddrCodec, r: Rules, file: string)
    ensures Load(a, r, file).Ok? ==> WellFormed(r, Load(a, r, file).value) && Linked(Load(a, r, file).value)
  {
    hide Validate, IsBetterTip, WellFormed, Insert, Linked, Lines, Replay;
    EmptyIsWellFormed(r);
    ReplayKeepsWellFormed(a, r, Lines(file), IsComplete(file), false, false, EMPTY);
    if Load(a, r, file).Ok? {
      WellFormedIsLinked(r, Load(a, r, file).value);
    }
  }

  /** A node that has just started on a tree. */
  ghost function Started(t: Tree): NodeView
    requires Linked(t)
  {
    NodeView(BestChain(t), t, true, [], 0, 0, 0, 0, 0, 0)
  }

  /** Starting on a file. */
  ghost function StartOn(a: AddrCodec, r: Rules, file: string): (s: FileNode)
    ensures s.Up? ==> WellFormed(r, s.view.tree)
  {
    LoadedIsWellFormed(a, r, file);
    match Load(a, r, file)
    case Ok(t) => Up(Started(t), file)
    case Err(error) => Down(file, error)
  }

  ghost predicate Sane(r: Rules, s: FileNode) {
    s.Up? ==> WellFormed(r, s.view.tree)
  }

  /** One event. A live step appends what it adds to the list of logged blocks. */
  ghost function FileStep(a: AddrCodec, r: Rules, s: FileNode, e: FileEvent): (u: FileNode)
    requires Sane(r, s)
    ensures Sane(r, u)
  {
    match s
    case Down(_, _) => s
    case Up(view, file) =>
      match e
      case Crash(k) => StartOn(a, r, file[..Min(k, |file|)])
      case Live(Restart) => StartOn(a, r, file)
      case Live(event) =>
        StepKeepsTree(r, view, event);
        var w := Step(r, view, event);
        Up(w, if |view.log| <= |w.log| then AppendAll(r, file, w.log[|view.log|..]) else file)
      case _ =>
        StepKeepsTree(r, view, AsEvent(e));
        var tried := Attempted(r, view, e);
        Up(Step(r, view, AsEvent(e)), if tried.Some? then FailedAppend(r, file, tried.value, e.written) else file)
  }

  ghost function FileRun(a: AddrCodec, r: Rules, s: FileNode, events: seq<FileEvent>): (u: FileNode)
    requires Sane(r, s)
    ensures Sane(r, u)
    decreases |events|
  {
    if events == [] then s else FileRun(a, r, FileStep(a, r, s, events[0]), events[1..])
  }

  /** A node with storage that has never run. */
  function FreshFile(): FileNode {
    Up(Fresh(true), [])
  }

  // ---------------------------------------------------------------- clean runs

  /** The file holds exactly the blocks that lead to the tree, and the active chain is the best branch. */
  ghost predicate InStep(r: Rules, s: FileNode, blocks: seq<Block>) {
    && s.Up? && s.view.storage
    && Whole(r, blocks, s.file)
    && AllAccepted(r, EMPTY, blocks) && InsertAll(r, EMPTY, blocks) == s.view.tree
    && ViewIsBestBranch(r, s.view)
  }

  ghost predicate Sound(s: FileNode) {
    s.Up? ==> ZeroFree(s.view.tree) && DiskWorks(s.view)
  }

  /** No append fails, and a crash leaves an empty file or one that ends in a newline. */
  ghost predicate CutsCleanly(s: FileNode, e: FileEvent) {
    && !e.FailedReceive? && !e.FailedMine?
    && (s.Up? && e.Crash? ==> IsComplete(s.file[..Min(e.k, |s.file|)]))
  }

  /** Every append succeeds and every crash cuts cleanly. */
  ghost predicate CleanRun(a: AddrCodec, r: Rules, s: FileNode, events: seq<FileEvent>)
    requires Sane(r, s)
    decreases |events|
  {
    Sound(s) && (events == [] || (CutsCleanly(s, events[0]) && CleanRun(a, r, FileStep(a, r, s, events[0]), events[1..])))
  }

  lemma {:induction false} AllAcceptedConcat(r: Rules, t: Tree, blocks: seq<Block>, more: seq<Block>)
    requires AllAccepted(r, t, blocks) && AllAccepted(r, InsertAll(r, t, blocks), more)
    ensures AllAccepted(r, t, blocks + more)
    ensures InsertAll(r, t, blocks + more) == InsertAll(r, InsertAll(r, t, blocks), more)
    decreases |blocks|
  {
    hide Validate, Insert;
    if blocks == [] {
      assert blocks + more == more;
    } else {
      assert (blocks + more)[0] == blocks[0] && (blocks + more)[1..] == blocks[1..] + more;
      AllAcceptedConcat(r, Insert(r, t, blocks[0]).0, blocks[1..], more);
    }
  }

  /** Starting on a whole file. */
  lemma StartWhole(a: AddrCodec, r: Rules, blocks: seq<Block>, file: string)
    requires AddrCodecSound(a) && Whole(r, blocks, file) && AllAccepted(r, EMPTY, blocks)
    ensures InStep(r, StartOn(a, r, file), blocks)
    ensures StartOn(a, r, file).file == file && DiskWorks(StartOn(a, r, file).view)
  {
    hide Validate, IsBetterTip, WellFormed, InsertAll, AllAccepted, Load, Whole, AddrCodecSound, Linked;
    WholeLoadsExactly(a, r, blocks, file);
    LoadedIsWellFormed(a, r, file);
  }

  /** What a live step adds to the log leads from the old tree to the new one. */
  lemma StepAppends(r: Rules, v: NodeView, e: Event) returns (added: seq<Block>)
    requires WellFormed(r, v.tree) && SamplerSound(r) && ZeroFree(v.tree) && v.storage
    requires !e.Restart? && Step(r, v, e).storageFailures == v.storageFailures
    ensures var w := Step(r, v, e); v.log <= w.log && added == w.log[|v.log|..]
    ensures AllAccepted(r, v.tree, added) && InsertAll(r, v.tree, added) == Step(r, v, e).tree
    ensures Step(r, v, e).storage
  {
    hide Validate, IsBetterTip, WellFormed, Insert, Applied, SamplerSound;
    var u := v.(log := []);
    NothingLogged(r, u);
    StepIsLogged(r, v.tree, v.storageFailures, u, e);
    StepKeepsStorage(r, v, e);
    LogOnlyGrows(r, v, e);
    added := Step(r, u, e).log;
  }

  lemma NothingLogged(r: Rules, v: NodeView)
    requires v.log == []
    ensures LogReplays(r, v.tree, v.storageFailures, v)
  {
  }

  lemma {:induction false} CommittedLogGrows(r: Rules, v: NodeView, log: seq<Block>, blocks: seq<Block>, disk: Disk)
    requires WellFormed(r, v.tree)
    ensures Committed(r, Prefixed(log, v), blocks, disk) == Prefixed(log, Committed(r, v, blocks, disk))
    decreases |blocks|
  {
    hide Validate, IsBetterTip, WellFormed, Insert, Applied;
    if blocks != [] {
      AppliedTree(r, v, blocks[0], Sync, disk);
      AppliedLogGrows(r, v, log, blocks[0], Sync, disk);
      CommittedLogGrows(r, Applied(r, v, blocks[0], Sync, disk).0, log, blocks[1..], disk);
    }
  }

  /** `v` with more in front of its log. */
  function Prefixed(log: seq<Block>, v: NodeView): NodeView {
    v.(log := log + v.log)
  }

  lemma PersistedLogGrows(log: seq<Block>, v: NodeView, b: Block, appended: bool)
    ensures Persisted(Prefixed(log, v), b, appended) == Prefixed(log, Persisted(v, b, appended))
  {
    assert log + v.log + [b] == log + (v.log + [b]);
  }

  lemma AcceptanceLogGrows(r: Rules, v: NodeView, log: seq<Block>, b: Block, tree: Tree, source: BlockSource, disk: Disk)
    requires Linked(tree)
    ensures AfterAcceptance(r, Prefixed(log, v), b, tree, source, disk)
            == Prefixed(log, AfterAcceptance(r, v, b, tree, source, disk))
  {
    hide Linked, BestChain, HeadHash, BlockHash, BestHash, Persisted;
    PersistedLogGrows(log, v.(tree := tree), b, disk(BlockHash(r, b)));
  }

  lemma AppliedLogGrows(r: Rules, v: NodeView, log: seq<Block>, b: Block, source: BlockSource, disk: Disk)
    requires WellFormed(r, v.tree)
    ensures var w := Applied(r, v, b, source, disk);
            Applied(r, Prefixed(log, v), b, source, disk) == (Prefixed(log, w.0), w.1)
  {
    hide Validate, IsBetterTip, WellFormed, Insert, Linked, Applied, AfterAcceptance, BlockHash;
    var t := Insert(r, v.tree, b).0;
    AppliedCases(r, v, b, source, disk);
    AppliedCases(r, Prefixed(log, v), b, source, disk);
    AcceptanceLogGrows(r, v, log, b, t, source, disk);
  }

  lemma MiningLogGrows(r: Rules, v: NodeView, log: seq<Block>, b: Block, disk: Disk)
    requires WellFormed(r, v.tree)
    ensures AfterMining(r, Prefixed(log, v), b, disk) == Prefixed(log, AfterMining(r, v, b, disk))
  {
    hide Validate, IsBetterTip, WellFormed, Insert, Linked, BestChain, HeadHash, BestHash, Persisted;
    InsertKeepsWellFormed(r, v.tree, b);
    WellFormedIsLinked(r, Insert(r, v.tree, b).0);
    PersistedLogGrows(log, Activated(r, v.(tree := Insert(r, v.tree, b).0)), b, disk(BlockHash(r, b)));
  }

  /** A live step does not look at the log; it only adds to it. */
  lemma LogOnlyGrows(r: Rules, v: NodeView, e: Event)
    requires WellFormed(r, v.tree) && !e.Restart?
    ensures Step(r, v, e) == Prefixed(v.log, Step(r, v.(log := []), e))
  {
    hide Validate, IsBetterTip, WellFormed, Insert, Applied, Linked, AfterMining, Committed, AllAccepted;
    var u := v.(log := []);
    assert Prefixed(v.log, u) == v;
    match e
    case Mine(seed, entropy, disk) =>
      if BestHeight(v.tree) < TWO64 && Mined(r, BestContext(v.tree), seed, entropy, 0).Some? {
        MiningLogGrows(r, u, v.log, Mined(r, BestContext(v.tree), seed, entropy, 0).value, disk);
      }
    case Receive(block, disk) => AppliedLogGrows(r, u, v.log, block, Gossip, disk);
    case Batch(blocks, disk) =>
      if AllAccepted(r, v.tree, blocks) {
        CommittedLogGrows(r, u, v.log, blocks, disk);
      }
  }

  /** One event of a clean run. */
  lemma CleanStep(a: AddrCodec, r: Rules, s: FileNode, e: FileEvent, blocks: seq<Block>) returns (now: seq<Block>)
    requires AddrCodecSound(a) && SamplerSound(r)
    requires Sane(r, s) && InStep(r, s, blocks) && Sound(s) && CutsCleanly(s, e)
    requires Sound(FileStep(a, r, s, e))
    ensures InStep(r, FileStep(a, r, s, e), now)
  {
    hide Validate, IsBetterTip, WellFormed, Insert, InsertAll, AllAccepted, Load, Whole, AddrCodecSound, SamplerSound,
         Step, IsComplete, ZeroFree;
    match e
    case Crash(k) =>
      var n := Min(k, |s.file|);
      var m, q := CutWhole(r, blocks, s.file, n);
      var j := if m == 0 then 0 else m - 1;
      AllAcceptedPrefix(r, EMPTY, blocks, j);
      StartWhole(a, r, blocks[..j], s.file[..n]);
      now := blocks[..j];
    case Live(event) =>
      if event.Restart? {
        StartWhole(a, r, blocks, s.file);
        now := blocks;
      } else {
        now := LiveStep(a, r, s, event, blocks);
      }
  }

  lemma LiveStep(a: AddrCodec, r: Rules, s: FileNode, e: Event, blocks: seq<Block>) returns (now: seq<Block>)
    requires SamplerSound(r) && !e.Restart?
    requires Sane(r, s) && InStep(r, s, blocks) && Sound(s) && Sound(FileStep(a, r, s, Live(e)))
    ensures InStep(r, FileStep(a, r, s, Live(e)), now)
  {
    hide Validate, IsBetterTip, WellFormed, Insert, InsertAll, AllAccepted, Load, Whole, SamplerSound, Step, ZeroFree;
    StepKeepsTree(r, s.view, e);
    var added := StepAppends(r, s.view, e);
    StepKeepsView(r, s.view, e);
    AllAcceptedConcat(r, EMPTY, blocks, added);
    AppendKeepsWhole(r, blocks, s.file, added);
    now := blocks + added;
  }

  /**
   * Any run of live events, restarts and crashes that cut cleanly: the node is up in the end, and starting it again,
   * then or after any further clean run, brings back its tree and its active chain.
   */
  lemma {:induction false} CleanRunsRecover(a: AddrCodec, r: Rules, s: FileNode, events: seq<FileEvent>, blocks: seq<Block>)
    returns (now: seq<Block>)
    requires AddrCodecSound(a) && SamplerSound(r)
    requires Sane(r, s) && InStep(r, s, blocks) && CleanRun(a, r, s, events)
    ensures var u := FileRun(a, r, s, events);
            && InStep(r, u, now)
            && StartOn(a, r, u.file).Up?
            && StartOn(a, r, u.file).view.tree == u.view.tree
            && StartOn(a, r, u.file).view.chain == u.view.chain
    decreases |events|
  {
    hide Validate, IsBetterTip, WellFormed, Insert, InsertAll, AllAccepted, Load, Whole, AddrCodecSound, SamplerSound,
         StartOn, FileStep, CutsCleanly, ZeroFree, Linked;
    if events == [] {
      now := blocks;
      StartWhole(a, r, blocks, s.file);
    } else {
      var next := CleanStep(a, r, s, events[0], blocks);
      now := CleanRunsRecover(a, r, FileStep(a, r, s, events[0]), events[1..], next);
    }
  }

  lemma FreshInStep(r: Rules)
    ensures Sane(r, FreshFile()) && InStep(r, FreshFile(), [])
  {
    EmptyIsWellFormed(r);
    NothingInserted(r);
  }

  /** So for a node that has never run: whatever happens to it, as long as appends succeed and crashes cut cleanly. */
  lemma FreshNodeRecovers(a: AddrCodec, r: Rules, events: seq<FileEvent>)
    requires AddrCodecSound(a) && SamplerSound(r)
    ensures Sane(r, FreshFile())
    ensures CleanRun(a, r, FreshFile(), events) ==>
              var u := FileRun(a, r, FreshFile(), events);
              && u.Up? && ViewIsBestBranch(r, u.view)
              && StartOn(a, r, u.file).Up?
              && StartOn(a, r, u.file).view.tree == u.view.tree
              && StartOn(a, r, u.file).view.chain == u.view.chain
  {
    hide Validate, IsBetterTip, WellFormed, Insert, InsertAll, AllAccepted, Load, Whole, AddrCodecSound, SamplerSound,
         StartOn, FileStep, CleanRun, FileRun, Linked, ViewIsBestBranch;
    FreshInStep(r);
    if CleanRun(a, r, FreshFile(), events) {
      var blocks := CleanRunsRecover(a, r, FreshFile(), events, []);
    }
  }

  // ---------------------------------------------------------------- after a torn tail

  ghost predicate ZeroFreeWith(s: FileNode, failures: nat) {
    s.Up? ==> ZeroFree(s.view.tree) && s.view.storageFailures == failures
  }

  /** Live events only, and no append fails any more. */
  ghost predicate LiveRun(a: AddrCodec, r: Rules, s: FileNode, events: seq<FileEvent>, failures: nat)
    requires Sane(r, s)
    decreases |events|
  {
    && ZeroFreeWith(s, failures)
    && (events == []
        || (&& events[0].Live? && !events[0].event.Restart?
            && LiveRun(a, r, FileStep(a, r, s, events[0]), events[1..], failures)))
  }

  lemma {:induction false} AppendAllTwice(r: Rules, file: string, blocks: seq<Block>, more: seq<Block>)
    ensures AppendAll(r, AppendAll(r, file, blocks), more) == AppendAll(r, file, blocks + more)
    decreases |blocks|
  {
    hide Append;
    if blocks == [] {
      assert blocks + more == more;
    } else {
      assert (blocks + more)[0] == blocks[0] && (blocks + more)[1..] == blocks[1..] + more;
      AppendAllTwice(r, Append(r, file, blocks[0]), blocks[1..], more);
    }
  }

  /** What has happened since the view was `v` and the file was `file`: `added` was logged, and nothing failed. */
  ghost predicate Since(r: Rules, s: FileNode, v: NodeView, file: string, added: seq<Block>) {
    && s.Up? && s.view.storage && s.view.storageFailures == v.storageFailures
    && s.view.log == v.log + added
    && s.file == AppendAll(r, file, added)
    && InsertAll(r, v.tree, added) == s.view.tree && AllAccepted(r, v.tree, added)
  }

  lemma {:induction false} LiveRunAppends(
      a: AddrCodec, r: Rules, s: FileNode, events: seq<FileEvent>, v: NodeView, file: string, before: seq<Block>)
    returns (added: seq<Block>)
    requires SamplerSound(r) && Sane(r, s) && LiveRun(a, r, s, events, v.storageFailures) && Since(r, s, v, file, before)
    ensures Since(r, FileRun(a, r, s, events), v, file, added)
    decreases |events|
  {
    hide Validate, IsBetterTip, WellFormed, Insert, InsertAll, AllAccepted, Load, AddrCodecSound, SamplerSound, Step,
         ZeroFree, AppendAll, Since;
    if events == [] {
      added := before;
    } else {
      var u, e := FileStep(a, r, s, events[0]), events[0].event;
      var now := LiveSince(a, r, s, e, v, file, before);
      added := LiveRunAppends(a, r, u, events[1..], v, file, now);
    }
  }

  lemma LiveSince(a: AddrCodec, r: Rules, s: FileNode, e: Event, v: NodeView, file: string, before: seq<Block>)
    returns (now: seq<Block>)
    requires SamplerSound(r) && !e.Restart? && Sane(r, s)
    requires ZeroFreeWith(s, v.storageFailures) && Since(r, s, v, file, before)
    requires ZeroFreeWith(FileStep(a, r, s, Live(e)), v.storageFailures)
    ensures Since(r, FileStep(a, r, s, Live(e)), v, file, now)
  {
    hide Validate, IsBetterTip, WellFormed, Insert, InsertAll, AllAccepted, Load, AddrCodecSound, SamplerSound, Step,
         ZeroFree, AppendAll;
    StepKeepsTree(r, s.view, e);
    var added := StepAppends(r, s.view, e);
    var w := Step(r, s.view, e);
    now := before + added;
    assert w.log == s.view.log + added;
    assert v.log + before + added == v.log + now;
    AppendAllTwice(r, file, before, added);
    AllAcceptedConcat(r, v.tree, before, added);
  }

  /** A torn file loads to the tree of the records that survived. */
  lemma TornLoads(a: AddrCodec, r: Rules, blocks: seq<Block>, file: string, k: nat) returns (j: nat)
    requires AddrCodecSound(a) && AllAccepted(r, EMPTY, blocks) && ChecksumsTellPrefixes(r, blocks)
    requires Whole(r, blocks, file) && k <= |file| && !IsComplete(file[..k])
    ensures j <= |blocks| && Load(a, r, file[..k]) == Ok(InsertAll(r, EMPTY, blocks[..j]))
    ensures blocks != [] ==> file == LogText(r, blocks) && Survive(r, blocks, k, j)
  {
    hide Validate, Insert, InsertAll, AllAccepted, AddrCodecSound, Load, HeaderLine, RecordLine, LogText, Survive,
         ChecksumsTellPrefixes;
    if blocks == [] {
      HeaderOnly(r, file, k);
      NothingSurvives(r);
      LoadHeaderPart(a, r, k);
      NothingInserted(r);
      j := 0;
      assert blocks[..0] == [];
    } else {
      LogTextIsLines(r, blocks);
      j := EveryCutHasSurvivors(r, blocks, k);
      CutLogReplays(a, r, blocks, k, j);
      SurviveLength(r, blocks, k, j);
    }
  }

  lemma NothingSurvives(r: Rules)
    requires ChecksumsTellPrefixes(r, [])
    ensures !PrefixCollision(r, ChainFingerprint(r.config))
  {
    hide PrefixCollision, ChainFingerprint;
  }

  lemma HeaderOnly(r: Rules, file: string, k: nat)
    requires Whole(r, [], file) && k <= |file| && !IsComplete(file[..k])
    ensures k <= |HeaderLine(r, r.config)| && file[..k] == HeaderLine(r, r.config)[..k]
  {
    hide HeaderLine;
    OneLine(HeaderLine(r, r.config));
    assert WholeLines(r, []) == [HeaderLine(r, r.config)];
  }

  /**
   * A crash that leaves an unfinished line. The node starts again, with the tree of the records that survived. From then
   * on everything seems well, but its next restart succeeds if and only if it has accepted no block in between: the
   * first block it logs is glued to the unfinished line, and the file is refused as long as that line stands.
   */
  lemma TornTailIsLatent(
      a: AddrCodec, r: Rules, s: FileNode, blocks: seq<Block>, k: nat, events: seq<FileEvent>) returns (j: nat)
    requires AddrCodecSound(a) && SamplerSound(r)
    requires Sane(r, s) && InStep(r, s, blocks) && k <= |s.file| && !IsComplete(s.file[..k])
    requires ChecksumsTellPrefixes(r, blocks)
    requires LiveRun(a, r, FileStep(a, r, s, Crash(k)), events, 0)
    requires var w := FileRun(a, r, FileStep(a, r, s, Crash(k)), events);
             w.Up? && w.view.log != [] ==> ChecksumsTellGlue(r, blocks, w.view.log[0])
    ensures j <= |blocks|
    ensures blocks != [] ==> s.file == LogText(r, blocks) && Survive(r, blocks, k, j)
    ensures var u := FileStep(a, r, s, Crash(k));
            var w := FileRun(a, r, u, events);
            && u.Up? && u.view.tree == InsertAll(r, EMPTY, blocks[..j])
            && w.Up? && w.view.tree == InsertAll(r, u.view.tree, w.view.log)
            && if w.view.log == [] then StartOn(a, r, w.file) == u
               else StartOn(a, r, w.file) == Down(w.file, InvalidLine)
  {
    hide Validate, IsBetterTip, WellFormed, Insert, InsertAll, AllAccepted, Load, AddrCodecSound, SamplerSound, Whole,
         ZeroFree, IsComplete, ChecksumsTellPrefixes, ChecksumsTellGlue, LiveRun, FileRun, Linked;
    var cut := s.file[..k];
    j := TornLoads(a, r, blocks, s.file, k);
    var u := FileStep(a, r, s, Crash(k));
    assert u == StartOn(a, r, cut);
    LoadedIsWellFormed(a, r, cut);
    NothingSince(r, u);
    var added := LiveRunAppends(a, r, u, events, u.view, cut, []);
    var w := FileRun(a, r, u, events);
    assert w.view.log == added;
    if added != [] {
      var survivors := AppendAfterCut(a, r, blocks, s.file, k, added);
    }
  }

  lemma NothingSince(r: Rules, s: FileNode)
    requires s.Up? && s.view.storage
    ensures Since(r, s, s.view, s.file, [])
  {
  }

  // ---------------------------------------------------------------- appends that fail

  lemma {:induction false} AppendAllLonger(r: Rules, file: string, blocks: seq<Block>)
    ensures |AppendAll(r, file, blocks)| >= |file| + |blocks|
    decreases |blocks|
  {
    hide RecordLine, HeaderLine;
    if blocks != [] {
      AppendAllLonger(r, Append(r, file, blocks[0]), blocks[1..]);
    }
  }

  /** A whole file that is no shorter holds no fewer blocks. */
  lemma NotShorter(r: Rules, blocks: seq<Block>, file: string, b: Block, left: string, n: nat)
    requires Whole(r, blocks, file) && |file| <= |left|
    requires n <= |blocks| + 1 && Whole(r, (blocks + [b])[..n], left)
    ensures n >= |blocks|
  {
    hide RecordLine, HeaderLine, JoinLines, RecordLines, WholeLines;
    if n < |blocks| {
      assert (blocks + [b])[..n] == blocks[..n] && blocks[..n] + blocks[n..] == blocks;
      AppendKeepsWhole(r, blocks[..n], left, blocks[n..]);
      AppendAllLonger(r, left, blocks[n..]);
      assert false;
    }
  }

  /**
   * An append that fails is a crash of the file without a crash of the node. Appending goes on: if the failed append left
   * an unfinished line, the file cannot be loaded any more; if not, the file is whole and holds the blocks before the
   * failed one, perhaps that one, and those appended since. Then it loads exactly if they are accepted in that order.
   */
  lemma AppendAfterFailedAppend(
      a: AddrCodec, r: Rules, blocks: seq<Block>, file: string, b: Block, written: nat, added: seq<Block>)
    returns (survivors: nat)
    requires AddrCodecSound(a) && AllAccepted(r, EMPTY, blocks + [b]) && Whole(r, blocks, file)
    requires added != [] && ChecksumsTellGlue(r, blocks + [b], added[0])
    ensures IsComplete(FailedAppend(r, file, b, written)) ==> |blocks| <= survivors <= |blocks| + 1
    ensures var left := FailedAppend(r, file, b, written);
            && (!IsComplete(left) ==> Load(a, r, AppendAll(r, left, added)) == Err(InvalidLine))
            && (IsComplete(left) ==>
                  && Whole(r, if survivors == |blocks| then blocks else blocks + [b], left)
                  && (Load(a, r, AppendAll(r, left, added)).Ok? <==>
                        AllAccepted(r, EMPTY, (if survivors == |blocks| then blocks else blocks + [b]) + added)))
  {
    hide Validate, Insert, InsertAll, AllAccepted, AddrCodecSound, Load, Whole, Append, ChecksumsTellGlue, IsComplete;
    var all := AppendAll(r, file, [b]);
    AppendKeepsWhole(r, blocks, file, [b]);
    assert all == Append(r, file, b) by { assert [b][1..] == []; }
    AppendAllLonger(r, file, [b]);
    var k := Min(|file| + written, |all|);
    assert all[..|all|] == all;
    survivors := AppendAfterCut(a, r, blocks + [b], all, k, added);
    if IsComplete(all[..k]) {
      NotShorter(r, blocks, file, b, all[..k], survivors);
      assert (blocks + [b])[..survivors] == if survivors == |blocks| then blocks else blocks + [b];
      WholeLoadsExactly(a, r, (blocks + [b])[..survivors] + added, AppendAll(r, all[..k], added));
    }
  }

  /** A file that a failed append left unfinished loads to the blocks before it, and that block if all its text is there. */
  lemma FailedAppendLoads(a: AddrCodec, r: Rules, blocks: seq<Block>, file: string, b: Block, written: nat) returns (j: nat)
    requires AddrCodecSound(a) && AllAccepted(r, EMPTY, blocks + [b]) && Whole(r, blocks, file)
    requires ChecksumsTellPrefixes(r, blocks + [b]) && !IsComplete(FailedAppend(r, file, b, written))
    ensures j <= |blocks| + 1
    ensures Load(a, r, FailedAppend(r, file, b, written)) == Ok(InsertAll(r, EMPTY, (blocks + [b])[..j]))
  {
    hide Validate, Insert, InsertAll, AllAccepted, AddrCodecSound, Load, Whole, Append, ChecksumsTellPrefixes, IsComplete;
    var all := AppendAll(r, file, [b]);
    AppendKeepsWhole(r, blocks, file, [b]);
    assert all == Append(r, file, b) by { assert [b][1..] == []; }
    AppendAllLonger(r, file, [b]);
    var k := Min(|file| + written, |all|);
    assert all[..|all|] == all;
    j := TornLoads(a, r, blocks + [b], all, k);
  }

  /** The node after an event whose append fails: it keeps the block, and counts the failure. */
  lemma FailedStep(a: AddrCodec, r: Rules, s: FileNode, blocks: seq<Block>, e: FileEvent) returns (b: Block)
    requires SamplerSound(r) && Sane(r, s) && InStep(r, s, blocks) && Sound(s)
    requires (e.FailedReceive? || e.FailedMine?) && Attempted(r, s.view, e).Some?
    ensures b == Attempted(r, s.view, e).value
    ensures AllAccepted(r, EMPTY, blocks + [b])
    ensures var u := FileStep(a, r, s, e);
            && u.Up? && u.view.storage && u.view.tree == InsertAll(r, EMPTY, blocks + [b])
            && u.view.log == s.view.log && u.view.storageFailures == 1
            && u.file == FailedAppend(r, s.file, b, e.written)
  {
    hide Validate, IsBetterTip, WellFormed, Insert, InsertAll, AllAccepted, Whole, SamplerSound, Linked, FailedAppend,
         ViewIsBestBranch, Mined;
    b := Attempted(r, s.view, e).value;
    StepKeepsTree(r, s.view, AsEvent(e));
    BestTipKnown(r, s.view.tree);
    if e.FailedMine? {
      MinedInsertFailsExactly(r, s.view.tree, e.seed, e.entropy);
    } else {
      AppliedCases(r, s.view, b, Gossip, FAILS);
    }
    InsertAllAppend(r, EMPTY, blocks, b);
    AllAcceptedAppend(r, EMPTY, blocks, b);
  }

  /**
   * An append that fails while the node goes on. The node keeps the block in its tree. Whether it can be restarted later
   * depends on the text the failed append left: behind an unfinished line, a restart succeeds if and only if nothing was
   * logged in between; behind whole lines, if and only if the blocks of the file and the later ones are accepted in that
   * order.
   */
  lemma FailedAppendIsLatent(
      a: AddrCodec, r: Rules, s: FileNode, blocks: seq<Block>, e: FileEvent, events: seq<FileEvent>)
    returns (added: seq<Block>, j: nat)
    requires AddrCodecSound(a) && SamplerSound(r)
    requires Sane(r, s) && InStep(r, s, blocks) && Sound(s)
    requires (e.FailedReceive? || e.FailedMine?) && Attempted(r, s.view, e).Some?
    requires ChecksumsTellPrefixes(r, blocks + [Attempted(r, s.view, e).value])
    requires LiveRun(a, r, FileStep(a, r, s, e), events, 1)
    requires var w := FileRun(a, r, FileStep(a, r, s, e), events);
             w.Up? && |w.view.log| > |s.view.log| ==>
               ChecksumsTellGlue(r, blocks + [Attempted(r, s.view, e).value], w.view.log[|s.view.log|])
    ensures j <= |blocks| + 1
    ensures var tried, u := blocks + [Attempted(r, s.view, e).value], FileStep(a, r, s, e);
            var w := FileRun(a, r, u, events);
            && u.Up? && u.view.tree == InsertAll(r, EMPTY, tried)
            && w.Up? && w.view.log == u.view.log + added && w.view.tree == InsertAll(r, u.view.tree, added)
            && (!IsComplete(u.file) && added == [] ==>
                  StartOn(a, r, w.file).Up? && StartOn(a, r, w.file).view.tree == InsertAll(r, EMPTY, tried[..j]))
            && (!IsComplete(u.file) && added != [] ==> StartOn(a, r, w.file) == Down(w.file, InvalidLine))
            && (IsComplete(u.file) ==>
                  && |blocks| <= j && Whole(r, tried[..j], u.file)
                  && (StartOn(a, r, w.file).Up? <==> AllAccepted(r, EMPTY, tried[..j] + added)))
  {
    hide Validate, IsBetterTip, WellFormed, Insert, InsertAll, AllAccepted, Load, AddrCodecSound, SamplerSound, Whole,
         ZeroFree, IsComplete, ChecksumsTellPrefixes, ChecksumsTellGlue, LiveRun, FileRun, Linked, FailedAppend, FileStep,
         ViewIsBestBranch;
    var b := FailedStep(a, r, s, blocks, e);
    var u := FileStep(a, r, s, e);
    NothingSince(r, u);
    added := LiveRunAppends(a, r, u, events, u.view, u.file, []);
    var w, tried := FileRun(a, r, u, events), blocks + [b];
    LoadedIsWellFormed(a, r, w.file);
    j := 0;
    if !IsComplete(u.file) {
      if added == [] {
        j := FailedAppendLoads(a, r, blocks, s.file, b, e.written);
      } else {
        var survivors := AppendAfterFailedAppend(a, r, blocks, s.file, b, e.written, added);
      }
    } else {
      j := WholeAfterFailure(a, r, blocks, s.file, b, e.written);
      AppendKeepsWhole(r, tried[..j], u.file, added);
      WholeLoadsExactly(a, r, tried[..j] + added, w.file);
    }
  }

  /** A failed append that left only whole lines. */
  lemma WholeAfterFailure(a: AddrCodec, r: Rules, blocks: seq<Block>, file: string, b: Block, written: nat) returns (j: nat)
    requires Whole(r, blocks, file) && IsComplete(FailedAppend(r, file, b, written))
    ensures |blocks| <= j <= |blocks| + 1 && Whole(r, (blocks + [b])[..j], FailedAppend(r, file, b, written))
  {
    hide Validate, Insert, Whole, Append, IsComplete, HeaderLine, RecordLine, JoinLines, RecordLines, PartOfLine;
    var all := AppendAll(r, file, [b]);
    AppendKeepsWhole(r, blocks, file, [b]);
    assert all == Append(r, file, b) by { assert [b][1..] == []; }
    AppendAllLonger(r, file, [b]);
    var k := Min(|file| + written, |all|);
    assert all[..|all|] == all;
    var m, q := CutWhole(r, blocks + [b], all, k);
    j := if m == 0 then 0 else m - 1;
    NotShorter(r, blocks, file, b, all[..k], j);
  }
}

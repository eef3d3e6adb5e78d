/**
 * Concrete runs for the theorems about the log: rules whose checksums tell torn and glued lines apart, a crash that
 * makes a later restart fail, and a failed append that does.
 */
module LogWitnesses {
  import opened Prelude
  import opened Domain
  import opened Validation
  import opened Training
  import opened ForkTree
  import opened ForkOrder
  import opened Chain
  import opened Node
  import opened NodeRuns
  import opened Text
  import opened Wire
  import opened Storage
  import opened LogRecovery
  import opened LogAppend
  import opened FileRuns
  import opened Witnesses

  // ---------------------------------------------------------------- an address codec

  function ShowAddr(x: SocketAddr): string {
    Decimal(x.host) + [':'] + Decimal(x.port)
  }

  function ParseAddr(s: string): Option<SocketAddr> {
    match Cut(s, ':')
    case None => None
    case Some((host, port)) =>
      match (ParseDigits(host), ParseU16(port))
      case (Some(h), Some(p)) => Some(SocketAddr(h, p))
      case _ => None
  }

  const DIGITS: AddrCodec := AddrCodec(ShowAddr, ParseAddr)

  lemma DigitsSound()
    ensures AddrCodecSound(DIGITS)
  {
    forall x: SocketAddr
      ensures DIGITS.parse(DIGITS.show(x)) == Some(x) && AddrTextClean(DIGITS.show(x))
    {
      AddrRoundTrip(x);
    }
  }

  lemma AddrRoundTrip(x: SocketAddr)
    ensures ParseAddr(ShowAddr(x)) == Some(x) && AddrTextClean(ShowAddr(x))
  {
    hide Decimal;
    DecimalDigits(x.host);
    DecimalPlain(x.host);
    DecimalPlain(x.port);
    PlainFree(Decimal(x.host), ':');
    CutAt(Decimal(x.host), ':', Decimal(x.port));
    UnsignedRoundTrip(x.port, 0x1_0000);
    forall c: char | c == '|' || c == ',' || c == '\r' || c == '\n'
      ensures Free(ShowAddr(x), c)
    {
      PlainFree(Decimal(x.host), c);
      PlainFree(Decimal(x.port), c);
    }
  }

  // ---------------------------------------------------------------- texts of small blocks are short

  lemma {:induction false} DecimalLength(n: nat, k: nat)
    requires n < Pow2(3 * k)
    ensures |Decimal(n)| <= k + 1
  {
    assert Pow2(0) == 1 && Pow2(3) == 8;
    if n >= 10 && k > 0 {
      Pow2Adds(3, 3 * (k - 1));
      DecimalLength(n / 10, k - 1);
    }
  }

  lemma NumberLength(n: u64)
    ensures |Decimal(n)| <= 23
  {
    Pow64();
    Pow2Monotone(64, 66);
    DecimalLength(n, 22);
  }

  lemma SignedLength(x: i64)
    ensures |SignedDecimal(x)| <= 24
  {
    hide Decimal;
    NumberLength(if x < 0 then -(x as int) else x);
  }

  ghost predicate AllWithin(parts: seq<string>, bound: nat) {
    forall i :: 0 <= i < |parts| ==> |parts[i]| <= bound
  }

  lemma {:induction false} JoinLength(parts: seq<string>, sep: char, bound: nat)
    requires AllWithin(parts, bound)
    ensures |Join(parts, sep)| <= |parts| * (bound + 1)
  {
    if |parts| > 0 {
      assert |parts| * (bound + 1) == (|parts| - 1) * (bound + 1) + (bound + 1);
      JoinLength(parts[1..], sep, bound);
    }
  }

  lemma ModelLength(m: ModelState)
    ensures |EncodeModel(m)| <= 200
  {
    hide SignedDecimal;
    var parts := EncodeAll(m.weights, SignedDecimal);
    forall i | 0 <= i < |parts|
      ensures |parts[i]| <= 24
    {
      SignedLength(m.weights[i]);
    }
    JoinLength(parts, '_', 24);
  }

  lemma EntryLength(e: TraceEntry)
    ensures |EncodeEntry(e)| <= 2010
  {
    hide Decimal, SignedDecimal, EncodeModel;
    NumberLength(e.step.index);
    NumberLength(e.step.seed);
    NumberLength(e.step.batchId);
    NumberLength(e.step.weightIndex);
    SignedLength(e.step.gradient);
    SignedLength(e.step.learningRatePpm);
    ModelLength(e.step.stateBefore);
    ModelLength(e.step.stateAfter);
    assert AllWithin(EntryFields(e), 200);
    JoinLength(EntryFields(e), ',', 200);
  }

  lemma HeaderFieldsLength(h: BlockHeader)
    ensures AllWithin(HeaderFields(h), 200)
  {
    hide Decimal, EncodeModel;
    NumberLength(h.height);
    NumberLength(h.trainingSeed);
    NumberLength(h.samplingEntropy);
    NumberLength(h.sampleCount);
    NumberLength(h.nonce);
    ModelLength(h.modelBefore);
    ModelLength(h.modelAfter);
  }

  lemma BlockLength(b: Block)
    requires |b.trace.entries| <= 1
    ensures |EncodeBlock(b)| < 65536
  {
    hide HeaderFields, EncodeModel, EncodeEntry;
    HeaderFieldsLength(b.header);
    ModelLength(b.trace.initialModel);
    ModelLength(b.trace.candidateModel);
    if b.trace.entries != [] {
      EntryLength(b.trace.entries[0]);
      assert EncodeAll(b.trace.entries, EncodeEntry) == [EncodeEntry(b.trace.entries[0])];
    }
    assert AllWithin(BlockFields(b), 2010);
    JoinLength(BlockFields(b), '|', 2010);
  }

  lemma FingerprintLength(c: ChainConfig)
    ensures |ChainFingerprint(c)| < 65536
  {
    hide Decimal;
    NumberLength(c.stepsPerBlock);
    NumberLength(c.samplesPerBlock);
    NumberLength(c.difficultyZeroBits);
    assert AllWithin(FingerprintFields(c), 40);
    JoinLength(FingerprintFields(c), ';', 40);
  }

  // ---------------------------------------------------------------- checksums that tell lines apart

  /** A text that is short, ASCII, starts with neither a small nor a large C, and has no K in front of a 1. */
  ghost predicate Tellable(payload: string) {
    && |payload| < 65536 && NoneBeyondAscii(payload)
    && payload != [] && payload[0] != 'c'
    && forall i :: 0 <= i < |payload| - 1 && payload[i] == 'K' ==> payload[i + 1] != '1'
  }

  lemma BlockTextShape(b: Block)
    ensures EncodeBlock(b) == "BLOCK" + ['|'] + EncodeBlock(b)[6..]
    ensures Free(EncodeBlock(b)[6..], 'K')
  {
    hide HeaderFields, EncodeModel, DigestToHex, EncodeList;
    var rest := BlockFields(b)[1..];
    assert rest == HeaderFields(b.header)
                   + [EncodeModel(b.trace.initialModel), EncodeModel(b.trace.candidateModel),
                      DigestToHex(b.trace.root), EncodeList(b.trace.entries, EncodeEntry, ';')];
    HeaderFieldsFree(b.header, 'K');
    ModelFree(b.trace.initialModel, 'K');
    ModelFree(b.trace.candidateModel, 'K');
    DigestField(b.trace.root, 'K');
    EntriesWithoutK(b.trace.entries);
    assert AllFree(rest, 'K');
    JoinFree(rest, '|', 'K');
    assert EncodeBlock(b) == "BLOCK" + ['|'] + Join(rest, '|');
  }

  lemma EntriesWithoutK(entries: seq<TraceEntry>)
    ensures Free(EncodeList(entries, EncodeEntry, ';'), 'K')
  {
    hide EntryFields;
    forall i | 0 <= i < |entries|
      ensures Free(EncodeEntry(entries[i]), 'K')
    {
      EntryFieldsFree(entries[i], 'K');
      JoinFree(EntryFields(entries[i]), ',', 'K');
    }
    ListFree(entries, EncodeEntry, ';', 'K');
  }

  lemma BlockTellable(b: Block)
    requires |b.trace.entries| <= 1
    ensures Tellable(EncodeBlock(b))
  {
    hide BlockFields;
    BlockLength(b);
    BlockTextShape(b);
    forall c: char | c as int >= 128
      ensures Free(EncodeBlock(b), c)
    {
      BlockFieldsFree(b, c);
      JoinFree(BlockFields(b), '|', c);
    }
    var payload, rest := EncodeBlock(b), EncodeBlock(b)[6..];
    forall i | 6 <= i < |payload|
      ensures payload[i] != 'K'
    {
      assert payload[i] == rest[i - 6] && rest[i - 6] in rest;
    }
  }

  lemma FingerprintTellable(c: ChainConfig)
    ensures Tellable(ChainFingerprint(c))
  {
    hide Decimal, FingerprintFields;
    FingerprintLength(c);
    forall k: char | k as int >= 128
      ensures Free(ChainFingerprint(c), k)
    {
      FingerprintFree(c, k);
    }
    FingerprintWithoutK(c);
    FingerprintStart(c);
  }

  lemma FingerprintWithoutK(c: ChainConfig)
    ensures Free(ChainFingerprint(c), 'K')
  {
    hide Decimal;
    TaggedFree("steps=", c.stepsPerBlock, 'K');
    TaggedFree("samples=", c.samplesPerBlock, 'K');
    TaggedFree("difficulty=", c.difficultyZeroBits, 'K');
    JoinFree(FingerprintFields(c), ';', 'K');
  }

  lemma FingerprintStart(c: ChainConfig)
    ensures ChainFingerprint(c) != [] && ChainFingerprint(c)[0] == 'r'
  {
    hide Decimal;
  }

  /** The checksum of a text: its length, or the mark. */
  lemma TextChecksum(r: Rules, difficulty: u32, s: string)
    requires r == LabelRules(difficulty, 1) && NoneBeyondAscii(s) && (s == [] || s[0] != 'c')
    ensures Checksum(r, s) ==
              if exists i :: 0 <= i < |s| - 1 && s[i] == 'K' && s[i + 1] == '1' then Label(255, 0) else Label(0, |s|)
  {
    hide Label, Utf8, NoneBeyondAscii;
    NoneBeyondIsAscii(s);
    AsciiBytes(s);
    var bytes := Utf8(s);
    if exists i :: 0 <= i < |s| - 1 && s[i] == 'K' && s[i + 1] == '1' {
      var i :| 0 <= i < |s| - 1 && s[i] == 'K' && s[i + 1] == '1';
      assert bytes[i] == 75 && bytes[i + 1] == 49;
    }
    if Marked(bytes) {
      var i :| 0 <= i < |bytes| - 1 && bytes[i] == 75 && bytes[i + 1] == 49;
      assert s[i] == 'K' && s[i + 1] == '1';
    }
    assert r.hash(bytes) == LabelHash(1, bytes);
  }

  lemma TellsPrefixes(r: Rules, difficulty: u32, payload: string)
    requires r == LabelRules(difficulty, 1) && Tellable(payload)
    ensures !PrefixCollision(r, payload)
  {
    hide Label, LabelRules, Checksum;
    forall i | 0 <= i < |payload|
      ensures Checksum(r, payload[..i]) != Checksum(r, payload)
    {
      PrefixAscii(payload, i);
      TextChecksum(r, difficulty, payload[..i]);
      TextChecksum(r, difficulty, payload);
      LabelsDiffer(0, i, 0, |payload|);
    }
  }

  lemma PrefixAscii(s: string, i: nat)
    requires NoneBeyondAscii(s) && i <= |s|
    ensures NoneBeyondAscii(s[..i])
  {
    forall c: char | c as int >= 128
      ensures Free(s[..i], c)
    {
      assert Free(s, c);
    }
  }

  lemma TellsGlue(r: Rules, difficulty: u32, payload: string, b: Block)
    requires r == LabelRules(difficulty, 1) && Tellable(payload)
    ensures !GlueCollision(r, payload, RecordLine(r, b))
  {
    hide Label, LabelRules, Checksum, RecordLine;
    var next := RecordLine(r, b);
    RecordAscii(r, b);
    RecordStart(r, b);
    forall i | 0 <= i <= |payload|
      ensures Checksum(r, payload[..i] + next) != Checksum(r, payload)
    {
      var glued := payload[..i] + next;
      GluedAscii(payload, i, next);
      assert glued[i + 4] == 'K' && glued[i + 5] == '1';
      assert glued[0] == if i == 0 then next[0] else payload[0];
      TextChecksum(r, difficulty, glued);
      TextChecksum(r, difficulty, payload);
      LabelsDiffer(255, 0, 0, |payload|);
    }
  }

  lemma RecordStart(r: Rules, b: Block)
    ensures |RecordLine(r, b)| >= 6 && RecordLine(r, b)[..6] == RECORD_TAG
    ensures RecordLine(r, b)[0] == 'C' && RecordLine(r, b)[4] == 'K' && RecordLine(r, b)[5] == '1'
  {
    hide Checksum, EncodeBlock, DigestToHex;
    assert RECORD_TAG[0] == 'C' && RECORD_TAG[4] == 'K' && RECORD_TAG[5] == '1';
  }

  lemma GluedAscii(s: string, i: nat, next: string)
    requires NoneBeyondAscii(s) && NoneBeyondAscii(next) && i <= |s|
    ensures NoneBeyondAscii(s[..i] + next)
  {
    forall c: char | c as int >= 128
      ensures Free(s[..i] + next, c)
    {
      assert Free(s, c) && Free(next, c);
    }
  }

  /** Under these rules the hypotheses on checksums hold of every log of small blocks. */
  lemma ChecksumsTell(r: Rules, difficulty: u32, blocks: seq<Block>, b: Block)
    requires r == LabelRules(difficulty, 1)
    requires forall i :: 0 <= i < |blocks| ==> |blocks[i].trace.entries| <= 1
    ensures ChecksumsTellPrefixes(r, blocks) && ChecksumsTellGlue(r, blocks, b)
  {
    hide LabelRules, PrefixCollision, GlueCollision, EncodeBlock, ChainFingerprint, Tellable, RecordLine;
    FingerprintTellable(r.config);
    TellsPrefixes(r, difficulty, ChainFingerprint(r.config));
    TellsGlue(r, difficulty, ChainFingerprint(r.config), b);
    forall i | 0 <= i < |blocks|
      ensures !PrefixCollision(r, EncodeBlock(blocks[i]))
      ensures !GlueCollision(r, EncodeBlock(blocks[i]), RecordLine(r, b))
    {
      BlockTellable(blocks[i]);
      TellsPrefixes(r, difficulty, EncodeBlock(blocks[i]));
      TellsGlue(r, difficulty, EncodeBlock(blocks[i]), b);
    }
  }

  // ---------------------------------------------------------------- runs

  const WORKS: Disk := hash => true

  /** Receiving a new valid block. */
  lemma ReceiveNew(r: Rules, v: NodeView, b: Block, disk: Disk)
    requires WellFormed(r, v.tree) && BlockHash(r, b) !in v.tree.nodes && Insert(r, v.tree, b).1.Ok? && v.storage
    ensures var w := Step(r, v, Receive(b, disk));
            && w.tree == Insert(r, v.tree, b).0 && w.storage
            && w.log == (if disk(BlockHash(r, b)) then v.log + [b] else v.log)
            && w.storageFailures == v.storageFailures + if disk(BlockHash(r, b)) then 0 else 1
  {
    hide Validate, IsBetterTip, WellFormed, Insert, Linked, BlockHash;
    AppliedCases(r, v, b, Gossip, disk);
  }

  /** A block that a well-formed tree takes in has as many trace entries as the rules say. */
  lemma AcceptedLength(r: Rules, t: Tree, b: Block)
    requires BlockHash(r, b) !in t.nodes && Insert(r, t, b).1.Ok?
    ensures |b.trace.entries| == r.config.stepsPerBlock
  {
    hide IsBetterTip;
  }

  /** The first two blocks of a row. */
  lemma TwoBlocks() returns (r: Rules, b: Block, c: Block)
    ensures r == LabelRules(8, 1) && SamplerSound(r)
    ensures WellFormed(r, EMPTY) && WellFormed(r, Insert(r, EMPTY, b).0)
    ensures BlockHash(r, b) != ZERO && BlockHash(r, c) != ZERO && BlockHash(r, b) != BlockHash(r, c)
    ensures b.header.previousBlock == ZERO
    ensures Insert(r, EMPTY, b).1.Ok? && Insert(r, EMPTY, b).0.nodes.Keys == {BlockHash(r, b)}
    ensures |b.trace.entries| <= 1
    ensures c.header.previousBlock == BlockHash(r, b)
    ensures Insert(r, Insert(r, EMPTY, b).0, c).1.Ok?
    ensures Insert(r, Insert(r, EMPTY, b).0, c).0.nodes.Keys == {BlockHash(r, b), BlockHash(r, c)}
  {
    hide Validate, IsBetterTip, Label, LabelRules, WellFormed, Insert, SamplerSound, NodeOk;
    r := LabelRules(8, 1);
    LabelSampler(8, 1);
    RulesDifficulty(8, 1);
    EmptyIsWellFormed(r);
    EmptyIsRow(r);
    b := RowNext(r, 8, EMPTY, 1, 0);
    var t := Insert(r, EMPTY, b).0;
    c := RowNext(r, 8, t, 1, 1);
    InsertKeepsWellFormed(r, EMPTY, b);
    InsertGrows(r, EMPTY, b);
    InsertGrows(r, t, c);
    AcceptedLength(r, EMPTY, b);
    RowStart(r, EMPTY, b);
    assert EMPTY.nodes.Keys == {};
    LabelsDiffer(1, 1, 1, 2);
  }

  lemma EmptyIsRow(r: Rules)
    ensures IsRow(r, EMPTY, 1, 0)
  {
    hide Label;
    EmptyIsWellFormed(r);
  }

  lemma RowStart(r: Rules, t: Tree, b: Block)
    requires t == EMPTY && Insert(r, t, b).1.Ok?
    ensures b.header.previousBlock == ZERO
  {
    hide Validate, IsBetterTip;
  }

  lemma ZeroFreeKeys(t: Tree)
    requires ZERO !in t.nodes.Keys
    ensures ZeroFree(t)
  {
  }

  lemma TwoReceipts(r: Rules, v: NodeView, b: Block, first: Disk, c: Block, second: Disk)
    requires WellFormed(r, v.tree) && ZeroFree(v.tree)
    ensures var w := Step(r, v, Receive(b, first));
            && WellFormed(r, w.tree)
            && Run(r, v, [Receive(b, first), Receive(c, second)]) == Step(r, w, Receive(c, second))
            && (ZeroFree(w.tree) && ZeroFree(Step(r, w, Receive(c, second)).tree) ==>
                  CleanlyMined(r, v, [Receive(b, first), Receive(c, second)]))
  {
    hide Validate, IsBetterTip, WellFormed, Insert, Step, ZeroFree;
    var events := [Receive(b, first), Receive(c, second)];
    assert events[1..] == [events[1]] && [events[1]][1..] == [];
    StepKeepsTree(r, v, events[0]);
    var w := Step(r, v, events[0]);
    StepKeepsTree(r, w, events[1]);
    var x := Step(r, w, events[1]);
    assert Run(r, x, []) == x;
    assert Run(r, w, [events[1]]) == x;
    assert ZeroFree(x.tree) ==> CleanlyMined(r, x, []);
    assert ZeroFree(w.tree) && ZeroFree(x.tree) ==> CleanlyMined(r, w, [events[1]]);
  }

  /**
   * A reachable state whose log names a block without its parent: one append fails, the next one succeeds. The node goes
   * on with both blocks, and its next restart is refused.
   */
  lemma RefusedRestartExists() returns (r: Rules, b: Block, c: Block)
    ensures SamplerSound(r) && WellFormed(r, EMPTY)
    ensures CleanlyMined(r, Fresh(true), [Receive(b, FAILS), Receive(c, WORKS)])
    ensures var v := Run(r, Fresh(true), [Receive(b, FAILS), Receive(c, WORKS)]);
            && BlockHash(r, b) in v.tree.nodes && BlockHash(r, c) in v.tree.nodes
            && v.log == [c] && !ParentsFirst(r, v.log) && !AllAccepted(r, EMPTY, v.log)
  {
    hide Validate, IsBetterTip, LabelRules, WellFormed, Insert, SamplerSound, Step, BlockHash, AllAccepted;
    r, b, c := TwoBlocks();
    var events := [Receive(b, FAILS), Receive(c, WORKS)];
    var v := Fresh(true);
    ReceiveNew(r, v, b, FAILS);
    var w := Step(r, v, events[0]);
    ReceiveNew(r, w, c, WORKS);
    var x := Step(r, w, events[1]);
    ZeroFreeKeys(w.tree);
    ZeroFreeKeys(x.tree);
    TwoReceipts(r, v, b, FAILS, c, WORKS);
    assert x.log == [c];
    assert !ParentEarlier(r, [c], 0);
    RestartRefusedExactly(r, true, events);
  }

  /** The file after the first block, and a cut one character into its record. */
  lemma CutInFirstRecord(r: Rules, b: Block) returns (file: string, k: nat)
    ensures file == AppendAll(r, [], [b]) && Whole(r, [b], file)
    ensures k + 1 < |file| && !IsComplete(file[..k])
  {
    hide RecordLine, HeaderLine;
    file := AppendAll(r, [], [b]);
    k := |HeaderLine(r, r.config)| + 2;
    AppendKeepsWhole(r, [], [], [b]);
    assert [] + [b] == [b];
    RecordStart(r, b);
    assert [b][1..] == [];
    assert file == HeaderLine(r, r.config) + "\n" + RecordLine(r, b) + "\n";
    assert file[k - 1] == RecordLine(r, b)[0];
  }

  /** A live event that receives a new block while the disk works. */
  lemma LiveReceive(a: AddrCodec, r: Rules, s: FileNode, b: Block)
    requires Sane(r, s) && s.Up? && s.view.storage && BlockHash(r, b) !in s.view.tree.nodes
    requires Insert(r, s.view.tree, b).1.Ok?
    ensures var u := FileStep(a, r, s, Live(Receive(b, WORKS)));
            && u.Up? && u.view.tree == Insert(r, s.view.tree, b).0 && u.view.storage
            && u.view.log == s.view.log + [b] && u.view.storageFailures == s.view.storageFailures
            && u.file == AppendAll(r, s.file, [b])
  {
    hide Validate, IsBetterTip, WellFormed, Insert, Step, BlockHash, AppendAll;
    ReceiveNew(r, s.view, b, WORKS);
    StepKeepsTree(r, s.view, Receive(b, WORKS));
    assert (s.view.log + [b])[|s.view.log|..] == [b];
  }

  /** The state after the first block. */
  lemma FirstLogged(a: AddrCodec, r: Rules, b: Block)
    requires SamplerSound(r) && Sane(r, FreshFile())
    requires BlockHash(r, b) !in EMPTY.nodes && Insert(r, EMPTY, b).1.Ok? && ZeroFree(Insert(r, EMPTY, b).0)
    ensures var s := FileStep(a, r, FreshFile(), Live(Receive(b, WORKS)));
            InStep(r, s, [b]) && s.file == AppendAll(r, [], [b]) && s.view.log == [b] && s.view.tree == Insert(r, EMPTY, b).0
  {
    hide Validate, IsBetterTip, WellFormed, Insert, BlockHash, AppendAll, SamplerSound, Whole, ZeroFree, Step;
    FreshInStep(r);
    LiveReceive(a, r, FreshFile(), b);
    var v, e := Fresh(true), Receive(b, WORKS);
    StepKeepsTree(r, v, e);
    StepKeepsView(r, v, e);
    AppendKeepsWhole(r, [], [], [b]);
    assert [] + [b] == [b] && [b][1..] == [];
    assert v.log + [b] == [b];
    var s := FileStep(a, r, FreshFile(), Live(e));
    assert s.file == AppendAll(r, [], [b]);
    assert InsertAll(r, EMPTY, [b]) == InsertAll(r, Insert(r, EMPTY, b).0, []);
    assert AllAccepted(r, Insert(r, EMPTY, b).0, []);
    assert ViewIsBestBranch(r, s.view);
  }

  /** A start on a file that was cut inside its first record. */
  lemma TornAtFirst(a: AddrCodec, r: Rules, b: Block, file: string, k: nat)
    requires AddrCodecSound(a) && AllAccepted(r, EMPTY, [b]) && ChecksumsTellPrefixes(r, [b])
    requires Whole(r, [b], file) && k + 1 < |file| && !IsComplete(file[..k])
    ensures StartOn(a, r, file[..k]) == Up(Fresh(true), file[..k])
  {
    hide Validate, Insert, AddrCodecSound, Load, Whole, LogText, ChecksumsTellPrefixes, AllAccepted, InsertAll;
    var j := TornLoads(a, r, [b], file, k);
    FewSurvive(r, b, k, j);
    assert [b][..0] == [];
    NothingInserted(r);
    LoadedIsWellFormed(a, r, file[..k]);
  }

  lemma FewSurvive(r: Rules, b: Block, k: nat, j: nat)
    requires Survive(r, [b], k, j) && k + 1 < |LogText(r, [b])|
    ensures j == 0
  {
    hide LogText;
    assert [b][..1] == [b];
  }

  lemma OneEvent(a: AddrCodec, r: Rules, s: FileNode, e: Event)
    requires Sane(r, s) && !e.Restart?
    ensures FileRun(a, r, s, [Live(e)]) == FileStep(a, r, s, Live(e))
    ensures ZeroFreeWith(s, 0) && ZeroFreeWith(FileStep(a, r, s, Live(e)), 0) ==> LiveRun(a, r, s, [Live(e)], 0)
  {
    hide WellFormed, FileStep, ZeroFreeWith;
    var u := FileStep(a, r, s, Live(e));
    assert [Live(e)][1..] == [];
    assert FileRun(a, r, u, []) == u;
    assert ZeroFreeWith(u, 0) ==> LiveRun(a, r, u, [], 0);
  }

  /** What happens after the crash. */
  lemma AfterTheCrash(a: AddrCodec, r: Rules, s: FileNode, b: Block, k: nat)
    requires AddrCodecSound(a) && SamplerSound(r) && Sane(r, s) && InStep(r, s, [b])
    requires k <= |s.file| && !IsComplete(s.file[..k])
    requires ChecksumsTellPrefixes(r, [b]) && ChecksumsTellGlue(r, [b], b)
    requires FileStep(a, r, s, Crash(k)) == Up(Fresh(true), s.file[..k])
    requires BlockHash(r, b) !in EMPTY.nodes && Insert(r, EMPTY, b).1.Ok? && ZeroFree(Insert(r, EMPTY, b).0)
    ensures var w := FileStep(a, r, FileStep(a, r, s, Crash(k)), Live(Receive(b, WORKS)));
            && w.Up? && w.view.tree == Insert(r, EMPTY, b).0
            && StartOn(a, r, w.file) == Down(w.file, InvalidLine)
  {
    hide Validate, IsBetterTip, WellFormed, Insert, SamplerSound, BlockHash, AllAccepted, InsertAll, AddrCodecSound, InStep,
         IsComplete, ChecksumsTellPrefixes, ChecksumsTellGlue, FileStep, ZeroFree, StartOn, FileRun, LiveRun;
    var u, e := FileStep(a, r, s, Crash(k)), Receive(b, WORKS);
    LiveReceive(a, r, u, b);
    EmptyIsZeroFree();
    OneEvent(a, r, u, e);
    var j := TornTailIsLatent(a, r, s, [b], k, [Live(e)]);
  }

  lemma EmptyIsZeroFree()
    ensures ZeroFree(EMPTY)
  {
  }

  lemma RestartStarts(a: AddrCodec, r: Rules, s: FileNode)
    requires Sane(r, s) && s.Up?
    ensures FileStep(a, r, s, Live(Restart)) == StartOn(a, r, s.file)
    ensures forall k :: 0 <= k <= |s.file| ==> FileStep(a, r, s, Crash(k)) == StartOn(a, r, s.file[..k])
  {
    hide WellFormed, StartOn;
  }

  /**
   * A crash with a torn tail, step by step: a fresh node logs a block, the crash cuts its record, the node starts again,
   * logs the block once more, and its next restart fails.
   */
  lemma TornTailExists() returns (a: AddrCodec, r: Rules, b: Block, k: nat)
    ensures AddrCodecSound(a) && SamplerSound(r) && Sane(r, FreshFile())
    ensures var s := FileStep(a, r, FreshFile(), Live(Receive(b, WORKS)));
            var u := FileStep(a, r, s, Crash(k));
            var w := FileStep(a, r, u, Live(Receive(b, WORKS)));
            && s.Up? && u.Up? && w.Up?
            && s.view.log == [b] && u.view.tree == EMPTY && w.view.tree == s.view.tree
            && FileStep(a, r, w, Live(Restart)) == Down(w.file, InvalidLine)
  {
    hide Validate, IsBetterTip, LabelRules, WellFormed, Insert, SamplerSound, BlockHash, AllAccepted, InsertAll,
         AddrCodecSound, Whole, AppendAll, IsComplete, ChecksumsTellPrefixes, ChecksumsTellGlue, FileStep, StartOn, ZeroFree;
    var c;
    r, b, c := TwoBlocks();
    a := DIGITS;
    DigitsSound();
    FreshInStep(r);
    ZeroFreeKeys(Insert(r, EMPTY, b).0);
    FirstLogged(a, r, b);
    var s := FileStep(a, r, FreshFile(), Live(Receive(b, WORKS)));
    var file;
    file, k := CutInFirstRecord(r, b);
    ChecksumsTell(r, 8, [b], b);
    TornAtFirst(a, r, b, file, k);
    RestartStarts(a, r, s);
    AfterTheCrash(a, r, s, b, k);
    RestartStarts(a, r, FileStep(a, r, FileStep(a, r, s, Crash(k)), Live(Receive(b, WORKS))));
  }
}

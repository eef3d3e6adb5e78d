/** The text wire protocol (crates/chesscoin-node/src/wire.rs) and its round trips. */
module Wire {
  import opened Prelude
  import opened Domain
  import opened Text

  /** A peer address. How addresses are printed and parsed is library code, so it is a parameter. */
  datatype SocketAddr = SocketAddr(host: nat, port: u16)

  datatype AddrCodec = AddrCodec(show: SocketAddr -> string, parse: string -> Option<SocketAddr>)

  /** Parsing undoes printing, and printed addresses contain neither separators nor line ends. */
  ghost predicate AddrCodecSound(a: AddrCodec) {
    forall x :: a.parse(a.show(x)) == Some(x) && AddrTextClean(a.show(x))
  }

  ghost predicate AddrTextClean(s: string) {
    s != [] && Free(s, '|') && Free(s, ',') && Free(s, '\r') && Free(s, '\n')
  }

  datatype WireConfig = WireConfig(networkId: string, chainFingerprint: string, protocolVersion: u16)

  datatype PeerMessage =
    | Hello(nodeId: string, height: u64, head: Digest, listenAddr: SocketAddr)
    | GetBlocks(fromHeight: u64, limit: u64)
    | GetBlocksByLocator(locator: seq<Digest>, limit: u64)
    | GetInventory(locator: seq<Digest>, limit: u64)
    | Inventory(hashes: seq<Digest>)
    | GetHeaders(locator: seq<Digest>, limit: u64)
    | Headers(headers: seq<BlockHeader>)
    | GetPeers(limit: u64)
    | Peers(peers: seq<SocketAddr>)
    | BlockMessage(block: Block)
    | EndBlocks

  // ---------------------------------------------------------------- models, headers, entries

  function EncodeModel(m: ModelState): string {
    EncodeList(m.weights, SignedDecimal, '_')
  }

  function DecodeModel(s: string): Option<ModelState> {
    var fields := Split(s, '_');
    if |fields| != MODEL_WIDTH then None
    else
      match DecodeAll(fields, ParseI64)
      case Some(weights) => if |weights| == MODEL_WIDTH then Some(ModelState(weights)) else None
      case None => None
  }

  lemma {:induction false} DecodeAllPrefix<T>(parts: seq<string>, dec: string -> Option<T>, i: nat)
    requires i < |parts|
    ensures DecodeAll(parts[..i + 1], dec) ==
              match (DecodeAll(parts[..i], dec), dec(parts[i]))
              case (Some(xs), Some(x)) => Some(xs + [x])
              case _ => None
    decreases i
  {
    if i == 0 {
      assert parts[..1][1..] == [] && parts[..0] == [];
      var first := dec(parts[0]);
      if first.Some? {
        assert [first.value] + [] == [] + [first.value];
      }
    } else {
      DecodeAllPrefix(parts[1..], dec, i - 1);
      assert parts[..i + 1][1..] == parts[1..][..i] && parts[..i][1..] == parts[1..][..i - 1];
      var first, middle, last := dec(parts[0]), DecodeAll(parts[1..][..i - 1], dec), dec(parts[i]);
      if first.Some? && middle.Some? && last.Some? {
        assert [first.value] + (middle.value + [last.value]) == ([first.value] + middle.value) + [last.value];
      }
    }
  }

  lemma {:induction false} DecodeAllFails<T>(parts: seq<string>, dec: string -> Option<T>, i: nat)
    requires i <= |parts| && DecodeAll(parts[..i], dec) == None
    ensures DecodeAll(parts, dec) == None
    decreases |parts| - i
  {
    if i == |parts| {
      assert parts[..i] == parts;
    } else {
      DecodeAllPrefix(parts, dec, i);
      DecodeAllFails(parts, dec, i + 1);
    }
  }

  /** `decode_model`: fill an array of weights field by field. */
  method DecodeModelText(input: string) returns (result: Option<ModelState>)
    ensures result == DecodeModel(input)
  {
    var fields := Split(input, '_');
    if |fields| != MODEL_WIDTH {
      return None;
    }
    var weights := new i64[MODEL_WIDTH](_ => 0);
    var index := 0;
    while index < MODEL_WIDTH
      invariant 0 <= index <= MODEL_WIDTH
      invariant DecodeAll(fields[..index], ParseI64) == Some(weights[..index])
    {
      DecodeAllPrefix(fields, ParseI64, index);
      var weight := ParseI64(fields[index]);
      if weight.None? {
        DecodeAllFails(fields, ParseI64, index + 1);
        return None;
      }
      ghost var before := weights[..index];
      weights[index] := weight.value;
      assert weights[..index + 1] == before + [weight.value];
      index := index + 1;
    }
    assert fields[..index] == fields && weights[..index] == weights[..];
    return Some(ModelState(weights[..]));
  }

  function HeaderFields(h: BlockHeader): (fields: seq<string>)
    ensures |fields| == 9
  {
    [Decimal(h.height), DigestToHex(h.previousBlock), EncodeModel(h.modelBefore), EncodeModel(h.modelAfter),
     DigestToHex(h.traceRoot), Decimal(h.trainingSeed), Decimal(h.samplingEntropy), Decimal(h.sampleCount),
     Decimal(h.nonce)]
  }

  function HeaderFromFields(f: seq<string>): Option<BlockHeader>
    requires |f| == 9
  {
    match (ParseU64(f[0]), DigestFromHex(f[1]), DecodeModel(f[2]), DecodeModel(f[3]), DigestFromHex(f[4]),
           ParseU64(f[5]), ParseU64(f[6]), ParseU64(f[7]), ParseU64(f[8]))
    case (Some(height), Some(previous), Some(before), Some(after), Some(root), Some(seed), Some(entropy), Some(samples),
          Some(nonce)) =>
      Some(BlockHeader(height, previous, before, after, root, seed, entropy, samples, nonce))
    case _ => None
  }

  function EncodeWireHeader(h: BlockHeader): string {
    Join(HeaderFields(h), ',')
  }

  function DecodeWireHeader(s: string): Option<BlockHeader> {
    var fields := Split(s, ',');
    if |fields| != 9 then None else HeaderFromFields(fields)
  }

  function EntryFields(e: TraceEntry): (fields: seq<string>)
    ensures |fields| == 10
  {
    [DigestToHex(e.previousCommitment), DigestToHex(e.commitment), Decimal(e.step.index), Decimal(e.step.seed),
     Decimal(e.step.batchId), Decimal(e.step.weightIndex), SignedDecimal(e.step.gradient),
     SignedDecimal(e.step.learningRatePpm), EncodeModel(e.step.stateBefore), EncodeModel(e.step.stateAfter)]
  }

  function EntryFromFields(f: seq<string>): Option<TraceEntry>
    requires |f| == 10
  {
    match (DigestFromHex(f[0]), DigestFromHex(f[1]), ParseU64(f[2]), ParseU64(f[3]), ParseU64(f[4]), ParseU64(f[5]),
           ParseI64(f[6]), ParseI64(f[7]), DecodeModel(f[8]), DecodeModel(f[9]))
    case (Some(previous), Some(commitment), Some(index), Some(seed), Some(batch), Some(weight), Some(gradient),
          Some(rate), Some(before), Some(after)) =>
      Some(TraceEntry(previous, TrainingStep(index, seed, batch, weight, gradient, rate, before, after), commitment))
    case _ => None
  }

  function EncodeEntry(e: TraceEntry): string {
    Join(EntryFields(e), ',')
  }

  function DecodeEntry(s: string): Option<TraceEntry> {
    var fields := Split(s, ',');
    if |fields| != 10 then None else EntryFromFields(fields)
  }

  // ---------------------------------------------------------------- messages

  function HexList(hashes: seq<Digest>): string {
    EncodeList(hashes, DigestToHex, ',')
  }

  function ParseHexList(s: string): Option<seq<Digest>> {
    DecodeList(s, DigestFromHex, ',')
  }

  /** `encode_block`, before its fields are joined. */
  function BlockFields(b: Block): (fields: seq<string>)
    ensures |fields| == 14
  {
    ["BLOCK"] + HeaderFields(b.header)
    + [EncodeModel(b.trace.initialModel), EncodeModel(b.trace.candidateModel), DigestToHex(b.trace.root),
       EncodeList(b.trace.entries, EncodeEntry, ';')]
  }

  function BlockFromFields(f: seq<string>): Option<Block>
    requires |f| == 14
  {
    match (HeaderFromFields(f[1..10]), DecodeModel(f[10]), DecodeModel(f[11]), DigestFromHex(f[12]),
           DecodeList(f[13], DecodeEntry, ';'))
    case (Some(header), Some(initial), Some(candidate), Some(root), Some(entries)) =>
      Some(Block(header, TrainingTrace(initial, candidate, entries, root)))
    case _ => None
  }

  /** `encode_message`, before its fields are joined. */
  function MessageFields(a: AddrCodec, m: PeerMessage): (fields: seq<string>)
    ensures fields != []
  {
    match m
    case Hello(nodeId, height, head, listenAddr) =>
      ["HELLO", Escape(nodeId), Decimal(height), DigestToHex(head), a.show(listenAddr)]
    case GetBlocks(fromHeight, limit) => ["GET_BLOCKS", Decimal(fromHeight), Decimal(limit)]
    case GetBlocksByLocator(locator, limit) => ["GET_BLOCKS_LOCATOR", HexList(locator), Decimal(limit)]
    case GetInventory(locator, limit) => ["GET_INVENTORY", HexList(locator), Decimal(limit)]
    case Inventory(hashes) => ["INVENTORY", HexList(hashes)]
    case GetHeaders(locator, limit) => ["GET_HEADERS", HexList(locator), Decimal(limit)]
    case Headers(headers) => ["HEADERS", EncodeList(headers, EncodeWireHeader, ';')]
    case GetPeers(limit) => ["GET_PEERS", Decimal(limit)]
    case Peers(peers) => ["PEERS", EncodeList(peers, a.show, ',')]
    case BlockMessage(block) => BlockFields(block)
    case EndBlocks => ["END_BLOCKS"]
  }

  function EncodeMessage(a: AddrCodec, m: PeerMessage): string {
    Join(MessageFields(a, m), '|')
  }

  function DecodeFields(a: AddrCodec, f: seq<string>): Option<PeerMessage>
    requires f != []
  {
    if f[0] == "HELLO" then
      if |f| != 5 then None
      else
        match (Unescape(f[1]), ParseU64(f[2]), DigestFromHex(f[3]), a.parse(f[4]))
        case (Some(nodeId), Some(height), Some(head), Some(addr)) => Some(Hello(nodeId, height, head, addr))
        case _ => None
    else if f[0] == "GET_BLOCKS" then
      if |f| != 3 then None
      else
        match (ParseU64(f[1]), ParseU64(f[2]))
        case (Some(from), Some(limit)) => Some(GetBlocks(from, limit))
        case _ => None
    else if f[0] == "GET_BLOCKS_LOCATOR" then
      if |f| != 3 then None
      else
        match (ParseHexList(f[1]), ParseU64(f[2]))
        case (Some(locator), Some(limit)) => Some(GetBlocksByLocator(locator, limit))
        case _ => None
    else if f[0] == "GET_INVENTORY" then
      if |f| != 3 then None
      else
        match (ParseHexList(f[1]), ParseU64(f[2]))
        case (Some(locator), Some(limit)) => Some(GetInventory(locator, limit))
        case _ => None
    else if f[0] == "INVENTORY" then
      if |f| != 2 then None
      else
        match ParseHexList(f[1])
        case Some(hashes) => Some(Inventory(hashes))
        case None => None
    else if f[0] == "GET_HEADERS" then
      if |f| != 3 then None
      else
        match (ParseHexList(f[1]), ParseU64(f[2]))
        case (Some(locator), Some(limit)) => Some(GetHeaders(locator, limit))
        case _ => None
    else if f[0] == "HEADERS" then
      if |f| != 2 then None
      else
        match DecodeList(f[1], DecodeWireHeader, ';')
        case Some(headers) => Some(Headers(headers))
        case None => None
    else if f[0] == "GET_PEERS" then
      if |f| != 2 then None
      else
        match ParseU64(f[1])
        case Some(limit) => Some(GetPeers(limit))
        case None => None
    else if f[0] == "PEERS" then
      if |f| != 2 then None
      else
        match DecodeList(f[1], a.parse, ',')
        case Some(peers) => Some(Peers(peers))
        case None => None
    else if f[0] == "BLOCK" then
      if |f| != 14 then None
      else
        match BlockFromFields(f)
        case Some(block) => Some(BlockMessage(block))
        case None => None
    else if f == ["END_BLOCKS"] then Some(EndBlocks)
    else None
  }

  function DecodeMessage(a: AddrCodec, line: string): Option<PeerMessage> {
    DecodeFields(a, Split(TrimEnd(line), '|'))
  }

  function EncodeNetworkMessage(a: AddrCodec, config: WireConfig, m: PeerMessage): string {
    Join(["CHESSCOIN", Decimal(config.protocolVersion), Escape(config.networkId), Escape(config.chainFingerprint),
          EncodeMessage(a, m)], '|')
  }

  function DecodeNetworkMessage(a: AddrCodec, line: string, config: WireConfig): Option<PeerMessage> {
    var f := SplitN(TrimEnd(line), '|', 5);
    if |f| != 5 || f[0] != "CHESSCOIN" then None
    else if ParseU16(f[1]) != Some(config.protocolVersion) then None
    else if Unescape(f[2]) != Some(config.networkId) then None
    else if Unescape(f[3]) != Some(config.chainFingerprint) then None
    else DecodeMessage(a, f[4])
  }

  // ---------------------------------------------------------------- fields contain no enclosing separator

  lemma ModelFree(m: ModelState, c: char)
    requires !IsPlain(c) && c != '_'
    ensures Free(EncodeModel(m), c)
  {
    forall i | 0 <= i < |m.weights|
      ensures Free(SignedDecimal(m.weights[i]), c)
    {
      SignedPlain(m.weights[i]);
      PlainFree(SignedDecimal(m.weights[i]), c);
    }
    ListFree(m.weights, SignedDecimal, '_', c);
  }

  lemma ModelRoundTrip(m: ModelState)
    ensures DecodeModel(EncodeModel(m)) == Some(m)
  {
    var w := m.weights;
    forall i | 0 <= i < |w|
      ensures Codes(w[i], SignedDecimal, ParseI64, '_')
    {
      SignedRoundTrip(w[i]);
      SignedPlain(w[i]);
      PlainFree(SignedDecimal(w[i]), '_');
    }
    var parts := EncodeAll(w, SignedDecimal);
    forall i | 0 <= i < |parts|
      ensures Free(parts[i], '_') && ParseI64(SignedDecimal(w[i])) == Some(w[i])
    {
      assert Codes(w[i], SignedDecimal, ParseI64, '_');
    }
    SplitJoin(parts, '_');
    DecodeAllInverse(w, SignedDecimal, ParseI64);
  }

  lemma NumberField(n: u64, c: char)
    ensures ParseU64(Decimal(n)) == Some(n)
    ensures !IsPlain(c) ==> Free(Decimal(n), c)
    ensures Decimal(n) != []
  {
    UnsignedRoundTrip(n, TWO64);
    DecimalPlain(n);
  }

  lemma SignedField(n: i64, c: char)
    ensures ParseI64(SignedDecimal(n)) == Some(n)
    ensures !IsPlain(c) ==> Free(SignedDecimal(n), c)
  {
    SignedRoundTrip(n);
    SignedPlain(n);
  }

  lemma DigestField(d: Digest, c: char)
    ensures DigestFromHex(DigestToHex(d)) == Some(d)
    ensures !IsPlain(c) ==> Free(DigestToHex(d), c)
    ensures DigestToHex(d) != []
  {
    DigestRoundTrip(d);
  }

  lemma HeaderFieldsFree(h: BlockHeader, c: char)
    requires !IsPlain(c) && c != '_'
    ensures AllFree(HeaderFields(h), c)
  {
    hide Decimal, DigestToHex, EncodeModel;
    NumberField(h.height, c);
    NumberField(h.trainingSeed, c);
    NumberField(h.samplingEntropy, c);
    NumberField(h.sampleCount, c);
    NumberField(h.nonce, c);
    DigestField(h.previousBlock, c);
    DigestField(h.traceRoot, c);
    ModelFree(h.modelBefore, c);
    ModelFree(h.modelAfter, c);
  }

  lemma HeaderFieldsRoundTrip(h: BlockHeader)
    ensures HeaderFromFields(HeaderFields(h)) == Some(h)
  {
    hide Decimal, DigestToHex, EncodeModel, ParseU64, DigestFromHex, DecodeModel;
    NumberField(h.height, ' ');
    NumberField(h.trainingSeed, ' ');
    NumberField(h.samplingEntropy, ' ');
    NumberField(h.sampleCount, ' ');
    NumberField(h.nonce, ' ');
    DigestField(h.previousBlock, ' ');
    DigestField(h.traceRoot, ' ');
    ModelRoundTrip(h.modelBefore);
    ModelRoundTrip(h.modelAfter);
  }

  lemma HeaderCodes(h: BlockHeader)
    ensures Codes(h, EncodeWireHeader, DecodeWireHeader, ';')
    ensures forall c :: c == '|' || c == '\r' || c == '\n' ==> Free(EncodeWireHeader(h), c)
  {
    hide HeaderFields, HeaderFromFields;
    HeaderFieldsFree(h, ',');
    SplitJoin(HeaderFields(h), ',');
    HeaderFieldsRoundTrip(h);
    forall c | c == ';' || c == '|' || c == '\r' || c == '\n'
      ensures Free(EncodeWireHeader(h), c)
    {
      HeaderFieldsFree(h, c);
      JoinFree(HeaderFields(h), ',', c);
    }
    JoinNotEmpty(HeaderFields(h), ',');
  }

  lemma JoinNotEmpty(parts: seq<string>, sep: char)
    requires |parts| > 1
    ensures Join(parts, sep) != []
  {
  }

  lemma EntryFieldsFree(e: TraceEntry, c: char)
    requires !IsPlain(c) && c != '_'
    ensures AllFree(EntryFields(e), c)
  {
    hide Decimal, SignedDecimal, DigestToHex, EncodeModel;
    DigestField(e.previousCommitment, c);
    DigestField(e.commitment, c);
    NumberField(e.step.index, c);
    NumberField(e.step.seed, c);
    NumberField(e.step.batchId, c);
    NumberField(e.step.weightIndex, c);
    SignedField(e.step.gradient, c);
    SignedField(e.step.learningRatePpm, c);
    ModelFree(e.step.stateBefore, c);
    ModelFree(e.step.stateAfter, c);
  }

  lemma EntryFieldsRoundTrip(e: TraceEntry)
    ensures EntryFromFields(EntryFields(e)) == Some(e)
  {
    hide Decimal, SignedDecimal, DigestToHex, EncodeModel, ParseU64, ParseI64, DigestFromHex, DecodeModel;
    DigestField(e.previousCommitment, ' ');
    DigestField(e.commitment, ' ');
    NumberField(e.step.index, ' ');
    NumberField(e.step.seed, ' ');
    NumberField(e.step.batchId, ' ');
    NumberField(e.step.weightIndex, ' ');
    SignedField(e.step.gradient, ' ');
    SignedField(e.step.learningRatePpm, ' ');
    ModelRoundTrip(e.step.stateBefore);
    ModelRoundTrip(e.step.stateAfter);
  }

  /** Characters that the text of a block never contains within a field: the bar, line ends, all that is not ASCII. */
  predicate NeverInBlock(c: char) {
    c == '|' || c == '\r' || c == '\n' || c as int >= 128
  }

  lemma EntryCodes(e: TraceEntry)
    ensures Codes(e, EncodeEntry, DecodeEntry, ';')
    ensures forall c :: NeverInBlock(c) ==> Free(EncodeEntry(e), c)
  {
    hide EntryFields, EntryFromFields;
    EntryFieldsFree(e, ',');
    SplitJoin(EntryFields(e), ',');
    EntryFieldsRoundTrip(e);
    forall c | c == ';' || NeverInBlock(c)
      ensures Free(EncodeEntry(e), c)
    {
      EntryFieldsFree(e, c);
      JoinFree(EntryFields(e), ',', c);
    }
    JoinNotEmpty(EntryFields(e), ',');
  }

  lemma HexListField(hashes: seq<Digest>, c: char)
    ensures ParseHexList(HexList(hashes)) == Some(hashes)
    ensures !IsPlain(c) && c != ',' ==> Free(HexList(hashes), c)
  {
    forall i | 0 <= i < |hashes|
      ensures Codes(hashes[i], DigestToHex, DigestFromHex, ',')
      ensures !IsPlain(c) ==> Free(DigestToHex(hashes[i]), c)
    {
      DigestField(hashes[i], ',');
      DigestField(hashes[i], c);
    }
    ListRoundTrip(hashes, DigestToHex, DigestFromHex, ',');
    if !IsPlain(c) && c != ',' {
      ListFree(hashes, DigestToHex, ',', c);
    }
  }

  lemma HeaderListField(headers: seq<BlockHeader>, c: char)
    requires c == '|' || c == '\r' || c == '\n'
    ensures DecodeList(EncodeList(headers, EncodeWireHeader, ';'), DecodeWireHeader, ';') == Some(headers)
    ensures Free(EncodeList(headers, EncodeWireHeader, ';'), c)
  {
    hide EncodeWireHeader, DecodeWireHeader;
    forall i | 0 <= i < |headers|
      ensures Codes(headers[i], EncodeWireHeader, DecodeWireHeader, ';')
      ensures Free(EncodeWireHeader(headers[i]), c)
    {
      HeaderCodes(headers[i]);
    }
    ListRoundTrip(headers, EncodeWireHeader, DecodeWireHeader, ';');
    ListFree(headers, EncodeWireHeader, ';', c);
  }

  lemma EntryListField(entries: seq<TraceEntry>, c: char)
    requires NeverInBlock(c)
    ensures DecodeList(EncodeList(entries, EncodeEntry, ';'), DecodeEntry, ';') == Some(entries)
    ensures Free(EncodeList(entries, EncodeEntry, ';'), c)
  {
    hide EncodeEntry, DecodeEntry;
    forall i | 0 <= i < |entries|
      ensures Codes(entries[i], EncodeEntry, DecodeEntry, ';')
      ensures Free(EncodeEntry(entries[i]), c)
    {
      EntryCodes(entries[i]);
    }
    ListRoundTrip(entries, EncodeEntry, DecodeEntry, ';');
    ListFree(entries, EncodeEntry, ';', c);
  }

  lemma AddrListField(a: AddrCodec, peers: seq<SocketAddr>, c: char)
    requires AddrCodecSound(a)
    requires c == '|' || c == '\r' || c == '\n'
    ensures DecodeList(EncodeList(peers, a.show, ','), a.parse, ',') == Some(peers)
    ensures Free(EncodeList(peers, a.show, ','), c)
  {
    forall i | 0 <= i < |peers|
      ensures Codes(peers[i], a.show, a.parse, ',')
      ensures Free(a.show(peers[i]), c)
    {
      assert AddrTextClean(a.show(peers[i]));
    }
    ListRoundTrip(peers, a.show, a.parse, ',');
    ListFree(peers, a.show, ',', c);
  }

  lemma BlockFieldsFree(b: Block, c: char)
    requires NeverInBlock(c)
    ensures AllFree(BlockFields(b), c)
  {
    hide HeaderFields, EncodeModel, DigestToHex, EncodeList, EncodeEntry;
    HeaderFieldsFree(b.header, c);
    ModelFree(b.trace.initialModel, c);
    ModelFree(b.trace.candidateModel, c);
    DigestField(b.trace.root, c);
    EntryListField(b.trace.entries, c);
    var head, tail := ["BLOCK"],
      [EncodeModel(b.trace.initialModel), EncodeModel(b.trace.candidateModel), DigestToHex(b.trace.root),
       EncodeList(b.trace.entries, EncodeEntry, ';')];
    assert AllFree(head, c);
    assert AllFree(tail, c);
    FreeAppend(head, HeaderFields(b.header), c);
    FreeAppend(head + HeaderFields(b.header), tail, c);
  }

  lemma FreeAppend(p: seq<string>, q: seq<string>, c: char)
    requires AllFree(p, c) && AllFree(q, c)
    ensures AllFree(p + q, c)
  {
  }

  lemma BlockFieldsRoundTrip(b: Block)
    ensures BlockFromFields(BlockFields(b)) == Some(b)
  {
    hide HeaderFields, HeaderFromFields, EncodeModel, DigestToHex, DecodeModel, DigestFromHex, EncodeList, DecodeList;
    var f := BlockFields(b);
    assert f[1..10] == HeaderFields(b.header);
    HeaderFieldsRoundTrip(b.header);
    ModelRoundTrip(b.trace.initialModel);
    ModelRoundTrip(b.trace.candidateModel);
    DigestField(b.trace.root, ' ');
    EntryListField(b.trace.entries, '|');
  }

  // ---------------------------------------------------------------- whole messages

  /** No field of a message contains a bar, and its last field contains no line end. */
  lemma MessageFieldsClean(a: AddrCodec, m: PeerMessage)
    requires AddrCodecSound(a)
    ensures AllFree(MessageFields(a, m), '|')
    ensures var last := MessageFields(a, m)[|MessageFields(a, m)| - 1]; Free(last, '\r') && Free(last, '\n')
  {
    hide Decimal, DigestToHex, Escape, Unescape, Bytewise, EncodeList, HexList, BlockFields, ParseHexList, DecodeList,
         ParseU64, DigestFromHex, DecodeWireHeader, EncodeWireHeader, AddrCodecSound, IsPlain;
    SeparatorsAreNotPlain();
    match m
    case Hello(nodeId, height, head, listenAddr) =>
      EscapeRoundTrip(nodeId);
      NumberField(height, '|');
      DigestField(head, '|');
      AddrField(a, listenAddr);
    case GetBlocks(fromHeight, limit) =>
      NumberField(fromHeight, '|');
      NumberFieldClean(limit);
    case GetBlocksByLocator(locator, limit) =>
      HexListField(locator, '|');
      NumberFieldClean(limit);
    case GetInventory(locator, limit) =>
      HexListField(locator, '|');
      NumberFieldClean(limit);
    case Inventory(hashes) =>
      HexListField(hashes, '|');
      HexListField(hashes, '\r');
      HexListField(hashes, '\n');
    case GetHeaders(locator, limit) =>
      HexListField(locator, '|');
      NumberFieldClean(limit);
    case Headers(headers) =>
      HeaderListField(headers, '|');
      HeaderListField(headers, '\r');
      HeaderListField(headers, '\n');
    case GetPeers(limit) =>
      NumberFieldClean(limit);
    case Peers(peers) =>
      AddrListField(a, peers, '|');
      AddrListField(a, peers, '\r');
      AddrListField(a, peers, '\n');
    case BlockMessage(block) =>
      BlockFieldsFree(block, '|');
      BlockFieldsFree(block, '\r');
      BlockFieldsFree(block, '\n');
    case EndBlocks =>
  }

  lemma SeparatorsAreNotPlain()
    ensures !IsPlain('|') && !IsPlain('\r') && !IsPlain('\n')
  {
  }

  lemma AddrField(a: AddrCodec, addr: SocketAddr)
    requires AddrCodecSound(a)
    ensures AddrTextClean(a.show(addr))
  {
  }

  lemma NumberFieldClean(n: u64)
    ensures Free(Decimal(n), '|') && Free(Decimal(n), '\r') && Free(Decimal(n), '\n')
  {
    NumberField(n, '|');
    NumberField(n, '\r');
    NumberField(n, '\n');
  }

  /** What arrives of a message: a node id is put together from its bytes, everything else is as it was sent. */
  function Received(m: PeerMessage): PeerMessage {
    match m
    case Hello(nodeId, height, head, listenAddr) => Hello(Bytewise(nodeId), height, head, listenAddr)
    case _ => m
  }

  /** Decoding the fields of a message gives what arrives of it. */
  lemma FieldsRoundTrip(a: AddrCodec, m: PeerMessage)
    requires AddrCodecSound(a)
    ensures DecodeFields(a, MessageFields(a, m)) == Some(Received(m))
  {
    hide Decimal, ParseU64, DigestToHex, DigestFromHex, Escape, Unescape, EncodeList, DecodeList, HexList, ParseHexList,
         BlockFields, BlockFromFields;
    match m
    case Hello(nodeId, height, head, listenAddr) =>
      EscapeRoundTrip(nodeId);
      NumberField(height, '|');
      DigestField(head, '|');
    case GetBlocks(fromHeight, limit) =>
      NumberField(fromHeight, '|');
      NumberField(limit, '|');
    case GetBlocksByLocator(locator, limit) =>
      HexListField(locator, '|');
      NumberField(limit, '|');
    case GetInventory(locator, limit) =>
      HexListField(locator, '|');
      NumberField(limit, '|');
    case Inventory(hashes) =>
      HexListField(hashes, '|');
    case GetHeaders(locator, limit) =>
      HexListField(locator, '|');
      NumberField(limit, '|');
    case Headers(headers) =>
      HeaderListField(headers, '|');
    case GetPeers(limit) =>
      NumberField(limit, '|');
    case Peers(peers) =>
      AddrListField(a, peers, '|');
    case BlockMessage(block) =>
      BlockFieldsRoundTrip(block);
      BlockTag(block);
    case EndBlocks =>
  }

  lemma BlockTag(b: Block)
    ensures BlockFields(b)[0] == "BLOCK"
  {
  }

  lemma {:induction false} JoinEnd(parts: seq<string>, sep: char)
    requires parts != []
    requires |parts| > 1 || parts[0] != []
    ensures Join(parts, sep) != []
    ensures var last := parts[|parts| - 1];
            Join(parts, sep)[|Join(parts, sep)| - 1] == if last == [] then sep else last[|last| - 1]
  {
    if |parts| > 1 {
      var rest := parts[1..];
      assert rest[|rest| - 1] == parts[|parts| - 1];
      if |rest| > 1 || rest[0] != [] {
        JoinEnd(rest, sep);
      }
    }
  }

  lemma TrimKeeps(s: string)
    requires s != [] ==> s[|s| - 1] != '\r' && s[|s| - 1] != '\n'
    ensures TrimEnd(s) == s
  {
  }

  lemma MessageNotEmpty(a: AddrCodec, m: PeerMessage)
    ensures MessageFields(a, m)[0] != []
  {
    if m.BlockMessage? {
      BlockTag(m.block);
    }
  }

  /** A message does not end in a line end, so trimming leaves it alone. */
  lemma MessageEnd(a: AddrCodec, m: PeerMessage)
    requires AddrCodecSound(a)
    ensures EncodeMessage(a, m) != []
    ensures TrimEnd(EncodeMessage(a, m)) == EncodeMessage(a, m)
    ensures var s := EncodeMessage(a, m); s[|s| - 1] != '\r' && s[|s| - 1] != '\n'
  {
    hide MessageFields, Join, AddrCodecSound;
    var f := MessageFields(a, m);
    MessageFieldsClean(a, m);
    MessageNotEmpty(a, m);
    JoinEnd(f, '|');
    var last := f[|f| - 1];
    if last != [] {
      assert last[|last| - 1] in last;
    }
    TrimKeeps(EncodeMessage(a, m));
  }

  /**
   * Every message survives the round trip: lists of any length, negative weights, and node ids that contain bars and
   * percent signs. The one exception is exact: a greeting survives if and only if its node id is ASCII.
   */
  lemma MessageRoundTrip(a: AddrCodec, m: PeerMessage)
    requires AddrCodecSound(a)
    ensures DecodeMessage(a, EncodeMessage(a, m)) == Some(Received(m))
    ensures DecodeMessage(a, EncodeMessage(a, m)) == Some(m) <==> (m.Hello? ==> Ascii(m.nodeId))
  {
    hide MessageFields, DecodeFields, AddrCodecSound;
    if m.Hello? {
      EscapeRoundTrip(m.nodeId);
      EscapeKeepsExactlyAscii(m.nodeId);
    }
    MessageEnd(a, m);
    MessageFieldsClean(a, m);
    SplitJoin(MessageFields(a, m), '|');
    FieldsRoundTrip(a, m);
  }

  /**
   * The envelope: a message reaches a node exactly if the protocol versions are equal and the receiver's network id and
   * chain fingerprint are what arrives of the sender's.
   */
  lemma EnvelopeRoundTrip(a: AddrCodec, sender: WireConfig, receiver: WireConfig, m: PeerMessage)
    requires AddrCodecSound(a)
    ensures DecodeNetworkMessage(a, EncodeNetworkMessage(a, sender, m), receiver) ==
              if && sender.protocolVersion == receiver.protocolVersion
                 && Bytewise(sender.networkId) == receiver.networkId
                 && Bytewise(sender.chainFingerprint) == receiver.chainFingerprint
              then Some(Received(m)) else None
  {
    hide EncodeMessage, DecodeMessage, AddrCodecSound, Escape, Unescape, Decimal, ParseU16;
    var f := ["CHESSCOIN", Decimal(sender.protocolVersion), Escape(sender.networkId), Escape(sender.chainFingerprint),
              EncodeMessage(a, m)];
    var line := EncodeNetworkMessage(a, sender, m);
    MessageEnd(a, m);
    JoinEnd(f, '|');
    TrimKeeps(line);
    EscapeRoundTrip(sender.networkId);
    EscapeRoundTrip(sender.chainFingerprint);
    VersionField(sender.protocolVersion);
    assert AllFree(f[..4], '|');
    SplitNJoin(f, '|', 5);
    MessageRoundTrip(a, m);
  }

  /**
   * With ASCII settings the envelope isolates networks: a message is taken by nodes with the same settings and by no
   * other.
   */
  lemma EnvelopeIsolatesNetworks(a: AddrCodec, sender: WireConfig, receiver: WireConfig, m: PeerMessage)
    requires AddrCodecSound(a) && Ascii(sender.networkId) && Ascii(sender.chainFingerprint)
    ensures DecodeNetworkMessage(a, EncodeNetworkMessage(a, sender, m), receiver) ==
              if sender == receiver then Some(Received(m)) else None
  {
    hide EncodeNetworkMessage, DecodeNetworkMessage, AddrCodecSound;
    EnvelopeRoundTrip(a, sender, receiver, m);
    Utf8Grows(sender.networkId);
    Utf8Grows(sender.chainFingerprint);
  }

  /** A network understands its own messages if and only if its id (and fingerprint) is ASCII. */
  lemma NetworkHearsItselfExactly(a: AddrCodec, config: WireConfig, m: PeerMessage)
    requires AddrCodecSound(a)
    ensures DecodeNetworkMessage(a, EncodeNetworkMessage(a, config, m), config).Some?
            <==> Ascii(config.networkId) && Ascii(config.chainFingerprint)
  {
    hide EncodeNetworkMessage, DecodeNetworkMessage, AddrCodecSound;
    EnvelopeRoundTrip(a, config, config, m);
    Utf8Grows(config.networkId);
    Utf8Grows(config.chainFingerprint);
  }

  lemma VersionField(v: u16)
    ensures ParseU16(Decimal(v)) == Some(v)
    ensures Free(Decimal(v), '|')
  {
    UnsignedRoundTrip(v, 0x1_0000);
    DecimalPlain(v);
    PlainFree(Decimal(v), '|');
  }

  // ---------------------------------------------------------------- chain fingerprints

  function FingerprintFields(c: ChainConfig): seq<string> {
    ["rules=v1", "model_width=8", "learning_rate_ppm=125000", "steps=" + Decimal(c.stepsPerBlock),
     "samples=" + Decimal(c.samplesPerBlock), "difficulty=" + Decimal(c.difficultyZeroBits)]
  }

  /** `chain_fingerprint`. */
  function ChainFingerprint(c: ChainConfig): string {
    Join(FingerprintFields(c), ';')
  }

  lemma TaggedNumber(tag: string, m: nat, n: nat)
    requires Free(tag, ';')
    ensures Free(tag + Decimal(m), ';')
    ensures tag + Decimal(m) == tag + Decimal(n) ==> m == n
  {
    DecimalPlain(m);
    PlainFree(Decimal(m), ';');
    if tag + Decimal(m) == tag + Decimal(n) {
      SplitEqual(tag, Decimal(m), tag, Decimal(n));
      DecimalDigits(m);
      DecimalDigits(n);
    }
  }

  lemma FingerprintFieldsFree(c: ChainConfig)
    ensures AllFree(FingerprintFields(c), ';')
  {
    TaggedNumber("steps=", c.stepsPerBlock, 0);
    TaggedNumber("samples=", c.samplesPerBlock, 0);
    TaggedNumber("difficulty=", c.difficultyZeroBits, 0);
  }

  /** Chains with different parameters have different fingerprints, so the envelope tells them apart. */
  lemma FingerprintIdentifiesConfig(c: ChainConfig, d: ChainConfig)
    ensures ChainFingerprint(c) == ChainFingerprint(d) <==> c == d
  {
    if ChainFingerprint(c) == ChainFingerprint(d) {
      FingerprintFieldsFree(c);
      FingerprintFieldsFree(d);
      SplitJoin(FingerprintFields(c), ';');
      SplitJoin(FingerprintFields(d), ';');
      var f, g := FingerprintFields(c), FingerprintFields(d);
      assert f[3] == g[3] && f[4] == g[4] && f[5] == g[5];
      TaggedNumber("steps=", c.stepsPerBlock, d.stepsPerBlock);
      TaggedNumber("samples=", c.samplesPerBlock, d.samplesPerBlock);
      TaggedNumber("difficulty=", c.difficultyZeroBits, d.difficultyZeroBits);
    }
  }
}

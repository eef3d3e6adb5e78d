/**
 * The wire format as another implementation would read it: which field stands where, what a decoder refuses, and a few
 * texts letter by letter.
 */
module WireFormat {
  import opened Prelude
  import opened Domain
  import opened Text
  import opened Wire

  // ---------------------------------------------------------------- which field stands where

  /** A header is nine fields, in this order. */
  lemma HeaderText(h: BlockHeader)
    ensures var f := Split(EncodeWireHeader(h), ',');
            && |f| == 9
            && ParseU64(f[0]) == Some(h.height) && DigestFromHex(f[1]) == Some(h.previousBlock)
            && DecodeModel(f[2]) == Some(h.modelBefore) && DecodeModel(f[3]) == Some(h.modelAfter)
            && DigestFromHex(f[4]) == Some(h.traceRoot)
            && ParseU64(f[5]) == Some(h.trainingSeed) && ParseU64(f[6]) == Some(h.samplingEntropy)
            && ParseU64(f[7]) == Some(h.sampleCount) && ParseU64(f[8]) == Some(h.nonce)
  {
    hide Decimal, DigestToHex, EncodeModel, ParseU64, DigestFromHex, DecodeModel;
    HeaderFieldsFree(h, ',');
    SplitJoin(HeaderFields(h), ',');
    NumberField(h.height, ',');
    NumberField(h.trainingSeed, ',');
    NumberField(h.samplingEntropy, ',');
    NumberField(h.sampleCount, ',');
    NumberField(h.nonce, ',');
    DigestField(h.previousBlock, ',');
    DigestField(h.traceRoot, ',');
    ModelRoundTrip(h.modelBefore);
    ModelRoundTrip(h.modelAfter);
  }

  /** A trace entry is ten fields, in this order. */
  lemma EntryText(e: TraceEntry)
    ensures var f := Split(EncodeEntry(e), ',');
            && |f| == 10
            && DigestFromHex(f[0]) == Some(e.previousCommitment) && DigestFromHex(f[1]) == Some(e.commitment)
            && ParseU64(f[2]) == Some(e.step.index) && ParseU64(f[3]) == Some(e.step.seed)
            && ParseU64(f[4]) == Some(e.step.batchId) && ParseU64(f[5]) == Some(e.step.weightIndex)
            && ParseI64(f[6]) == Some(e.step.gradient) && ParseI64(f[7]) == Some(e.step.learningRatePpm)
            && DecodeModel(f[8]) == Some(e.step.stateBefore) && DecodeModel(f[9]) == Some(e.step.stateAfter)
  {
    hide Decimal, SignedDecimal, DigestToHex, EncodeModel, ParseU64, ParseI64, DigestFromHex, DecodeModel;
    EntryFieldsFree(e, ',');
    SplitJoin(EntryFields(e), ',');
    DigestField(e.previousCommitment, ',');
    DigestField(e.commitment, ',');
    NumberField(e.step.index, ',');
    NumberField(e.step.seed, ',');
    NumberField(e.step.batchId, ',');
    NumberField(e.step.weightIndex, ',');
    SignedField(e.step.gradient, ',');
    SignedField(e.step.learningRatePpm, ',');
    ModelRoundTrip(e.step.stateBefore);
    ModelRoundTrip(e.step.stateAfter);
  }

  /** A model is its eight weights in order. */
  lemma ModelText(m: ModelState)
    ensures var f := Split(EncodeModel(m), '_');
            |f| == 8 && forall j :: 0 <= j < 8 ==> ParseI64(f[j]) == Some(m.weights[j])
  {
    hide SignedDecimal, ParseI64;
    var parts := EncodeAll(m.weights, SignedDecimal);
    forall j | 0 <= j < 8
      ensures Free(parts[j], '_') && ParseI64(parts[j]) == Some(m.weights[j])
    {
      SignedField(m.weights[j], '_');
    }
    SplitJoin(parts, '_');
  }

  /** A block is fourteen fields: its tag, the nine of its header, and its trace. */
  lemma BlockText(b: Block)
    ensures var f := Split(Join(BlockFields(b), '|'), '|');
            && |f| == 14 && f[0] == "BLOCK"
            && ParseU64(f[1]) == Some(b.header.height) && DigestFromHex(f[2]) == Some(b.header.previousBlock)
            && DecodeModel(f[3]) == Some(b.header.modelBefore) && DecodeModel(f[4]) == Some(b.header.modelAfter)
            && DigestFromHex(f[5]) == Some(b.header.traceRoot)
            && ParseU64(f[6]) == Some(b.header.trainingSeed) && ParseU64(f[7]) == Some(b.header.samplingEntropy)
            && ParseU64(f[8]) == Some(b.header.sampleCount) && ParseU64(f[9]) == Some(b.header.nonce)
            && DecodeModel(f[10]) == Some(b.trace.initialModel) && DecodeModel(f[11]) == Some(b.trace.candidateModel)
            && DigestFromHex(f[12]) == Some(b.trace.root)
            && DecodeList(f[13], DecodeEntry, ';') == Some(b.trace.entries)
  {
    hide Decimal, DigestToHex, EncodeModel, ParseU64, DigestFromHex, DecodeModel, EncodeList, DecodeList, Split;
    BlockFieldsFree(b, '|');
    SplitJoin(BlockFields(b), '|');
    NumberField(b.header.height, ',');
    NumberField(b.header.trainingSeed, ',');
    NumberField(b.header.samplingEntropy, ',');
    NumberField(b.header.sampleCount, ',');
    NumberField(b.header.nonce, ',');
    DigestField(b.header.previousBlock, ',');
    DigestField(b.header.traceRoot, ',');
    DigestField(b.trace.root, ',');
    ModelRoundTrip(b.header.modelBefore);
    ModelRoundTrip(b.header.modelAfter);
    ModelRoundTrip(b.trace.initialModel);
    ModelRoundTrip(b.trace.candidateModel);
    EntryListField(b.trace.entries, '|');
  }

  /** The fields of a message text. */
  function Fields(line: string): seq<string> {
    Split(TrimEnd(line), '|')
  }

  /** Every message is its tag and its fields in this order. */
  lemma MessageText(a: AddrCodec, m: PeerMessage)
    requires AddrCodecSound(a)
    ensures var f := Fields(EncodeMessage(a, m));
            match m
            case Hello(nodeId, height, head, listenAddr) =>
              && |f| == 5 && f[0] == "HELLO" && Unescape(f[1]) == Some(Bytewise(nodeId)) && ParseU64(f[2]) == Some(height)
              && DigestFromHex(f[3]) == Some(head) && a.parse(f[4]) == Some(listenAddr)
            case GetBlocks(fromHeight, limit) =>
              |f| == 3 && f[0] == "GET_BLOCKS" && ParseU64(f[1]) == Some(fromHeight) && ParseU64(f[2]) == Some(limit)
            case GetBlocksByLocator(locator, limit) =>
              && |f| == 3 && f[0] == "GET_BLOCKS_LOCATOR"
              && ParseHexList(f[1]) == Some(locator) && ParseU64(f[2]) == Some(limit)
            case GetInventory(locator, limit) =>
              |f| == 3 && f[0] == "GET_INVENTORY" && ParseHexList(f[1]) == Some(locator) && ParseU64(f[2]) == Some(limit)
            case Inventory(hashes) => |f| == 2 && f[0] == "INVENTORY" && ParseHexList(f[1]) == Some(hashes)
            case GetHeaders(locator, limit) =>
              |f| == 3 && f[0] == "GET_HEADERS" && ParseHexList(f[1]) == Some(locator) && ParseU64(f[2]) == Some(limit)
            case Headers(headers) =>
              |f| == 2 && f[0] == "HEADERS" && DecodeList(f[1], DecodeWireHeader, ';') == Some(headers)
            case GetPeers(limit) => |f| == 2 && f[0] == "GET_PEERS" && ParseU64(f[1]) == Some(limit)
            case Peers(peers) => |f| == 2 && f[0] == "PEERS" && DecodeList(f[1], a.parse, ',') == Some(peers)
            case BlockMessage(block) => |f| == 14 && f[0] == "BLOCK"
            case EndBlocks => f == ["END_BLOCKS"]
  {
    hide Decimal, ParseU64, DigestToHex, DigestFromHex, Escape, Unescape, Bytewise, EncodeList, DecodeList, HexList,
         ParseHexList, BlockFields, Split, TrimEnd, AddrCodecSound;
    MessageEnd(a, m);
    MessageFieldsClean(a, m);
    SplitJoin(MessageFields(a, m), '|');
    match m
    case Hello(nodeId, height, head, listenAddr) =>
      EscapeRoundTrip(nodeId);
      NumberField(height, '|');
      DigestField(head, '|');
      AddrParses(a, listenAddr);
    case GetBlocks(fromHeight, limit) =>
      NumberField(fromHeight, '|');
      NumberField(limit, '|');
    case GetBlocksByLocator(locator, limit) =>
      HexListField(locator, '|');
      NumberField(limit, '|');
    case GetInventory(locator, limit) =>
      HexListField(locator, '|');
      NumberField(limit, '|');
    case Inventory(hashes) =>
      HexListField(hashes, '|');
    case GetHeaders(locator, limit) =>
      HexListField(locator, '|');
      NumberField(limit, '|');
    case Headers(headers) =>
      HeaderListField(headers, '|');
    case GetPeers(limit) =>
      NumberField(limit, '|');
    case Peers(peers) =>
      AddrListField(a, peers, '|');
    case BlockMessage(block) =>
      BlockTag(block);
    case EndBlocks =>
  }

  lemma AddrParses(a: AddrCodec, addr: SocketAddr)
    requires AddrCodecSound(a)
    ensures a.parse(a.show(addr)) == Some(addr)
  {
  }

  // ---------------------------------------------------------------- what a decoder refuses

  /** What decodes has the tag of its type and exactly as many fields. */
  lemma DecoderIsStrict(a: AddrCodec, line: string)
    ensures var f := Fields(line);
            match DecodeMessage(a, line)
            case None => true
            case Some(Hello(_, _, _, _)) => |f| == 5 && f[0] == "HELLO"
            case Some(GetBlocks(_, _)) => |f| == 3 && f[0] == "GET_BLOCKS"
            case Some(GetBlocksByLocator(_, _)) => |f| == 3 && f[0] == "GET_BLOCKS_LOCATOR"
            case Some(GetInventory(_, _)) => |f| == 3 && f[0] == "GET_INVENTORY"
            case Some(Inventory(_)) => |f| == 2 && f[0] == "INVENTORY"
            case Some(GetHeaders(_, _)) => |f| == 3 && f[0] == "GET_HEADERS"
            case Some(Headers(_)) => |f| == 2 && f[0] == "HEADERS"
            case Some(GetPeers(_)) => |f| == 2 && f[0] == "GET_PEERS"
            case Some(Peers(_)) => |f| == 2 && f[0] == "PEERS"
            case Some(BlockMessage(_)) => |f| == 14 && f[0] == "BLOCK"
            case Some(EndBlocks) => f == ["END_BLOCKS"]
  {
    hide ParseU64, DigestFromHex, Unescape, DecodeList, ParseHexList, BlockFromFields, Split, TrimEnd;
  }

  /** Inner records are strict as well. */
  lemma RecordsAreStrict(text: string)
    ensures DecodeWireHeader(text).Some? ==> |Split(text, ',')| == 9
    ensures DecodeEntry(text).Some? ==> |Split(text, ',')| == 10
    ensures DecodeModel(text).Some? ==> |Split(text, '_')| == 8
    ensures DigestFromHex(text).Some? ==> |text| == 64
  {
    hide HeaderFromFields, EntryFromFields, DecodeAll, BytesOf, Split;
  }

  lemma {:induction false} ParsedDigits(s: string)
    ensures ParseDigits(s).Some? <==> forall i :: 0 <= i < |s| ==> IsDigit(s[i])
  {
    if s != [] {
      ParsedDigits(s[..|s| - 1]);
    }
  }

  /** An unsigned number is at least one digit, with at most a plus sign in front, and is below the bound of its type. */
  lemma NumbersAreStrict(s: string, bound: nat)
    ensures ParseUnsigned(s, bound).Some? <==>
              var digits := if s != [] && s[0] == '+' then s[1..] else s;
              && digits != [] && (forall i :: 0 <= i < |digits| ==> IsDigit(digits[i]))
              && ParseDigits(digits).Some? && ParseDigits(digits).value < bound
    ensures ParseUnsigned(s, bound).Some? ==>
              ParseDigits(if s[0] == '+' then s[1..] else s) == Some(ParseUnsigned(s, bound).value)
  {
    ParsedDigits(if s != [] && s[0] == '+' then s[1..] else s);
  }

  /** A signed number is digits with at most one sign in front, within the range of 64 bits. */
  lemma SignedNumbersAreStrict(s: string)
    ensures ParseI64(s).Some? <==>
              var digits := if s != [] && (s[0] == '+' || s[0] == '-') then s[1..] else s;
              && digits != [] && (forall i :: 0 <= i < |digits| ==> IsDigit(digits[i])) && ParseDigits(digits).Some?
              && ParseDigits(digits).value < TWO63 + if s[0] == '-' then 1 else 0
    ensures ParseI64(s).Some? ==>
              var digits := if s[0] == '+' || s[0] == '-' then s[1..] else s;
              ParseDigits(digits) == Some(if s[0] == '-' then -(ParseI64(s).value as int) else ParseI64(s).value as int)
  {
    hide ParseDigits;
    if s != [] && s[0] == '-' {
      NumbersAreStrict(s[1..], TWO63 + 1);
    } else {
      NumbersAreStrict(s, TWO63);
    }
  }

  lemma {:induction false} TrimAppend(s: string, ends: string)
    requires forall i :: 0 <= i < |ends| ==> ends[i] == '\r' || ends[i] == '\n'
    ensures TrimEnd(s + ends) == TrimEnd(s)
    decreases |ends|
  {
    if ends == [] {
      assert s + ends == s;
    } else {
      var n := |ends| - 1;
      assert (s + ends)[..|s + ends| - 1] == s + ends[..n];
      TrimAppend(s, ends[..n]);
    }
  }

  /** Carriage returns and newlines behind a message do not matter. */
  lemma LineEndsIgnored(a: AddrCodec, line: string, config: WireConfig, ends: string)
    requires forall i :: 0 <= i < |ends| ==> ends[i] == '\r' || ends[i] == '\n'
    ensures DecodeMessage(a, line + ends) == DecodeMessage(a, line)
    ensures DecodeNetworkMessage(a, line + ends, config) == DecodeNetworkMessage(a, line, config)
  {
    hide DecodeFields, Split, SplitN, TrimEnd;
    TrimAppend(line, ends);
  }

  lemma {:induction false} JoinSplitN(s: string, sep: char, n: nat)
    requires n > 0
    ensures Join(SplitN(s, sep, n), sep) == s
    ensures AllFree(SplitN(s, sep, n)[..|SplitN(s, sep, n)| - 1], sep)
    decreases n
  {
    if n > 1 {
      CutShrinks(s, sep);
      if Cut(s, sep).Some? {
        var (before, after) := Cut(s, sep).value;
        JoinSplitN(after, sep, n - 1);
        var parts := SplitN(s, sep, n);
        assert parts[1..] == SplitN(after, sep, n - 1);
        forall i | 0 <= i < |parts| - 1
          ensures Free(parts[i], sep)
        {
          if i > 0 {
            assert parts[i] == SplitN(after, sep, n - 1)[..|parts| - 2][i - 1];
          }
        }
      }
    }
  }

  /** A network message is taken exactly if it is the magic word, the receiver's settings and a message, in this order. */
  lemma EnvelopeMeaning(a: AddrCodec, line: string, config: WireConfig, m: PeerMessage)
    ensures DecodeNetworkMessage(a, line, config) == Some(m) <==>
              exists version: string, id: string, fingerprint: string, body: string ::
                && TrimEnd(line) == Join(["CHESSCOIN", version, id, fingerprint, body], '|')
                && Free(version, '|') && Free(id, '|') && Free(fingerprint, '|')
                && ParseU16(version) == Some(config.protocolVersion)
                && Unescape(id) == Some(config.networkId) && Unescape(fingerprint) == Some(config.chainFingerprint)
                && DecodeMessage(a, body) == Some(m)
  {
    hide DecodeMessage, Unescape, ParseU16, TrimEnd, SplitN, Join;
    var text := TrimEnd(line);
    var f := SplitN(text, '|', 5);
    if DecodeNetworkMessage(a, line, config) == Some(m) {
      JoinSplitN(text, '|', 5);
      assert f == ["CHESSCOIN", f[1], f[2], f[3], f[4]];
      assert Free(f[..4][1], '|') && Free(f[..4][2], '|') && Free(f[..4][3], '|');
    }
    forall version: string, id: string, fingerprint: string, body: string
      | text == Join(["CHESSCOIN", version, id, fingerprint, body], '|')
        && Free(version, '|') && Free(id, '|') && Free(fingerprint, '|')
      ensures f == ["CHESSCOIN", version, id, fingerprint, body]
    {
      var parts := ["CHESSCOIN", version, id, fingerprint, body];
      assert AllFree(parts[..4], '|');
      SplitNJoin(parts, '|', 5);
    }
  }

  // ---------------------------------------------------------------- texts letter by letter

  lemma NumberExamples()
    ensures Decimal(0) == "0" && Decimal(128) == "128"
  {
    assert Decimal(1) == "1";
    assert Decimal(12) == "12";
  }

  lemma SignedExamples()
    ensures SignedDecimal(-30) == "-30" && SignedDecimal(45) == "45"
  {
    assert Decimal(3) == "3";
    assert Decimal(30) == "30";
    assert Decimal(4) == "4";
  }

  lemma HexExamples()
    ensures HexOf([18, 171]) == "12ab" && BytesOf("12ab") == Some([18, 171]) && HexValue('B') == Some(11)
  {
    assert [18 as byte, 171][1..] == [171] && [171 as byte][1..] == [];
    HexRoundTrip([18, 171]);
  }

  lemma EscapeExample()
    ensures Escape("|%a") == "%7C%25a"
  {
    hide Replace;
    var s := "|%a";
    assert s[1..] == "%a" && "%a"[1..] == "a" && "a"[1..] == "";
    EscapeHead(s);
    EscapeHead("%a");
    EscapeHead("a");
    EscapeNothing();
    assert Escape("a") == "a";
    assert Escape("%a") == "%25a";
  }

  lemma EscapeNothing()
    ensures Escape("") == ""
  {
  }

  lemma UnescapeExamples()
    ensures Unescape("%7c") == Some("|") && Unescape("%2") == None && Unescape("%") == None && Unescape("%zz") == None
  {
    hide Unescape;
    AsciiUnescape("%7c", [37, 55, 99]);
    AsciiUnescape("%2", [37, 50]);
    AsciiUnescape("%", [37]);
    AsciiUnescape("%zz", [37, 122, 122]);
    assert [37 as byte, 55, 99][3..] == [];
    assert HexPair(55, 99) == Some(124) && HexPair(122, 122) == None;
    assert ['|'] + [] == "|";
  }

  lemma AsciiUnescape(s: string, b: seq<byte>)
    requires Ascii(s) && |b| == |s| && forall i :: 0 <= i < |s| ==> b[i] == s[i] as int
    ensures Unescape(s) == UnescapeBytes(b)
  {
    hide UnescapeBytes;
    AsciiUtf8(s);
    assert Utf8(s) == b;
  }

  lemma {:induction false} AsciiUtf8(s: string)
    requires Ascii(s)
    ensures |Utf8(s)| == |s| && forall i :: 0 <= i < |s| ==> Utf8(s)[i] == s[i] as int
  {
    if s != [] {
      AsciiUtf8(s[1..]);
    }
  }

  /** The fingerprint names the rules, the width, the learning rate and the three parameters, in this order. */
  lemma FingerprintText(c: ChainConfig)
    ensures Split(ChainFingerprint(c), ';')
            == ["rules=v1", "model_width=8", "learning_rate_ppm=125000", "steps=" + Decimal(c.stepsPerBlock),
                "samples=" + Decimal(c.samplesPerBlock), "difficulty=" + Decimal(c.difficultyZeroBits)]
    ensures ChainFingerprint(c) == Join(Split(ChainFingerprint(c), ';'), ';')
  {
    hide Decimal, Split, Join;
    FingerprintFieldsFree(c);
    SplitJoin(FingerprintFields(c), ';');
  }

  /** Two whole messages. */
  lemma MessageExamples(a: AddrCodec)
    ensures EncodeMessage(a, GetBlocks(7, 128)) == "GET_BLOCKS|7|128"
    ensures EncodeMessage(a, EndBlocks) == "END_BLOCKS"
    ensures EncodeMessage(a, Inventory([])) == "INVENTORY|"
  {
    assert Decimal(1) == "1";
    assert Decimal(12) == "12";
    assert Decimal(128) == "128" && Decimal(7) == "7";
    var f := ["GET_BLOCKS", "7", "128"];
    assert MessageFields(a, GetBlocks(7, 128)) == f;
    assert f[1..] == ["7", "128"] && f[1..][1..] == ["128"];
    assert Join(["7", "128"], '|') == "7|128";
    assert Join(f, '|') == "GET_BLOCKS|7|128";
    assert ["INVENTORY", ""][1..] == [""];
  }
}

/** A log cut at any byte position replays to the state after exactly the records whose text survived. */
module LogRecovery {
  import opened Prelude
  import opened Domain
  import opened Validation
  import opened ForkTree
  import opened ForkOrder
  import opened Text
  import opened Wire
  import opened Storage

  // ---------------------------------------------------------------- the text of a log

  function JoinLines(lines: seq<string>): string {
    if lines == [] then [] else lines[0] + "\n" + JoinLines(lines[1..])
  }

  function RecordLines(r: Rules, blocks: seq<Block>): (lines: seq<string>)
    ensures |lines| == |blocks|
  {
    if blocks == [] then [] else [RecordLine(r, blocks[0])] + RecordLines(r, blocks[1..])
  }

  lemma {:induction false} RecordLinesAt(r: Rules, blocks: seq<Block>)
    ensures forall i :: 0 <= i < |blocks| ==> RecordLines(r, blocks)[i] == RecordLine(r, blocks[i])
  {
    hide RecordLine;
    if blocks != [] {
      RecordLinesAt(r, blocks[1..]);
    }
  }

  /** Extending the blocks by one extends the lines by one. */
  lemma RecordLinesAppend(r: Rules, blocks: seq<Block>, b: Block)
    ensures RecordLines(r, blocks + [b]) == RecordLines(r, blocks) + [RecordLine(r, b)]
  {
    hide RecordLine, RecordLines;
    RecordLinesAt(r, blocks);
    RecordLinesAt(r, blocks + [b]);
    RecordLinesLength(r, blocks);
    RecordLinesLength(r, blocks + [b]);
  }

  lemma RecordLinesLength(r: Rules, blocks: seq<Block>)
    ensures |RecordLines(r, blocks)| == |blocks|
  {
  }

  /** The lines of a log: a header and one record per block, or nothing at all. */
  function LogLines(r: Rules, blocks: seq<Block>): seq<string> {
    if blocks == [] then [] else [HeaderLine(r, r.config)] + RecordLines(r, blocks)
  }

  lemma {:induction false} JoinLinesAppend(lines: seq<string>, more: seq<string>)
    ensures JoinLines(lines + more) == JoinLines(lines) + JoinLines(more)
  {
    if lines == [] {
      assert lines + more == more;
    } else {
      assert (lines + more)[0] == lines[0] && (lines + more)[1..] == lines[1..] + more;
      JoinLinesAppend(lines[1..], more);
    }
  }

  lemma OneLine(line: string)
    ensures JoinLines([line]) == line + "\n"
  {
    assert [line][1..] == [];
  }

  lemma {:induction false} LogTextIsLines(r: Rules, blocks: seq<Block>)
    ensures LogText(r, blocks) == JoinLines(LogLines(r, blocks))
  {
    hide RecordLine, HeaderLine, RecordLines, LogLines, JoinLines;
    if blocks == [] {
      assert LogLines(r, []) == [] && JoinLines([]) == [] by { NoLines(r); }
    } else {
      var n := |blocks| - 1;
      LogTextIsLines(r, blocks[..n]);
      assert blocks == blocks[..n] + [blocks[n]];
      LogLinesGrow(r, blocks[..n], blocks[n]);
    }
  }

  lemma NoLines(r: Rules)
    ensures LogLines(r, []) == [] && JoinLines([]) == []
  {
  }

  /** One more block is one more append. */
  lemma LogLinesGrow(r: Rules, blocks: seq<Block>, b: Block)
    ensures JoinLines(LogLines(r, blocks + [b])) == Append(r, JoinLines(LogLines(r, blocks)), b)
  {
    hide RecordLine, HeaderLine, RecordLines;
    LineNotEmpty(r, r.config);
    OneLine(RecordLine(r, b));
    OneLine(HeaderLine(r, r.config));
    RecordLinesAppend(r, blocks, b);
    var before := [HeaderLine(r, r.config)] + RecordLines(r, blocks);
    assert LogLines(r, blocks + [b]) == before + [RecordLine(r, b)];
    JoinLinesAppend(before, [RecordLine(r, b)]);
    if blocks == [] {
      RecordLinesLength(r, blocks);
      assert before == [HeaderLine(r, r.config)];
    }
  }

  lemma LineNotEmpty(r: Rules, c: ChainConfig)
    ensures HeaderLine(r, c) != []
  {
  }

  // ---------------------------------------------------------------- clean lines

  /** A line without line ends that does not start with a space. */
  ghost predicate Clean(line: string) {
    Free(line, '\n') && Free(line, '\r') && line != [] && !IsSpace(line[0])
  }

  ghost predicate AllClean(lines: seq<string>) {
    forall i :: 0 <= i < |lines| ==> Clean(lines[i])
  }

  lemma TaggedIsClean(r: Rules, tag: string, payload: string)
    requires Clean(tag) && Free(payload, '\n') && Free(payload, '\r')
    ensures Clean(TaggedLine(r, tag, payload))
  {
    hide DigestToHex, Checksum;
    DigestField(Checksum(r, payload), '\n');
    DigestField(Checksum(r, payload), '\r');
  }

  lemma TagsAreClean()
    ensures Clean(RECORD_TAG) && Clean(HEADER_TAG)
    ensures Free(RECORD_TAG, '|') && Free(HEADER_TAG, '|')
  {
  }

  lemma RecordIsClean(r: Rules, b: Block)
    ensures Clean(RecordLine(r, b))
  {
    hide TaggedLine, BlockFields;
    TagsAreClean();
    forall c | c == '\n' || c == '\r'
      ensures Free(EncodeBlock(b), c)
    {
      BlockFieldsFree(b, c);
      JoinFree(BlockFields(b), '|', c);
    }
    TaggedIsClean(r, RECORD_TAG, EncodeBlock(b));
  }

  lemma TaggedFree(tag: string, n: nat, end: char)
    requires Free(tag, end) && !IsPlain(end)
    ensures Free(tag + Decimal(n), end)
  {
    hide Decimal;
    DecimalPlain(n);
    PlainFree(Decimal(n), end);
  }

  lemma FixedFieldsFree(end: char)
    requires end == '\n' || end == '\r' || end as int >= 128
    ensures Free("rules=v1", end) && Free("model_width=8", end) && Free("learning_rate_ppm=125000", end)
    ensures Free("steps=", end) && Free("samples=", end) && Free("difficulty=", end)
  {
  }

  lemma FingerprintFree(c: ChainConfig, end: char)
    requires end == '\n' || end == '\r' || end as int >= 128
    ensures Free(ChainFingerprint(c), end)
  {
    hide Decimal, Free;
    FixedFieldsFree(end);
    TaggedFree("steps=", c.stepsPerBlock, end);
    TaggedFree("samples=", c.samplesPerBlock, end);
    TaggedFree("difficulty=", c.difficultyZeroBits, end);
    JoinFree(FingerprintFields(c), ';', end);
  }

  lemma HeaderIsClean(r: Rules, c: ChainConfig)
    ensures Clean(HeaderLine(r, c))
  {
    hide TaggedLine, ChainFingerprint;
    TagsAreClean();
    FingerprintFree(c, '\n');
    FingerprintFree(c, '\r');
    TaggedIsClean(r, HEADER_TAG, ChainFingerprint(c));
  }

  lemma UnfinishedLine(tail: string)
    requires Free(tail, '\n')
    ensures Lines(tail) == if tail == [] then [] else [tail]
    ensures IsComplete(tail) <==> tail == []
  {
    CutShrinks(tail, '\n');
    if tail != [] {
      assert tail[|tail| - 1] in tail;
    }
  }

  lemma FinishedLine(line: string, rest: string)
    requires Clean(line)
    ensures Lines(line + "\n" + rest) == [line] + Lines(rest)
    ensures IsComplete(line + "\n" + rest) <==> IsComplete(rest)
  {
    hide IsSpace;
    var text := line + "\n" + rest;
    assert text == line + ['\n'] + rest;
    CutAt(line, '\n', rest);
    assert line[|line| - 1] in line;
    assert text[|text| - 1] == if rest == [] then '\n' else rest[|rest| - 1];
  }

  /** Reading back lines that were written, and a last unfinished one. */
  lemma {:induction false} LinesOfText(lines: seq<string>, tail: string)
    requires AllClean(lines) && Free(tail, '\n')
    ensures Lines(JoinLines(lines) + tail) == lines + if tail == [] then [] else [tail]
    ensures IsComplete(JoinLines(lines) + tail) <==> tail == []
  {
    hide IsSpace, Lines, IsComplete, Clean;
    if lines == [] {
      assert JoinLines(lines) + tail == tail;
      UnfinishedLine(tail);
    } else {
      var rest := JoinLines(lines[1..]) + tail;
      assert JoinLines(lines) + tail == lines[0] + "\n" + rest;
      LinesOfText(lines[1..], tail);
      FinishedLine(lines[0], rest);
    }
  }

  // ---------------------------------------------------------------- decoding whole lines

  lemma TaggedRoundTrip(r: Rules, tag: string, payload: string)
    requires Free(tag, '|')
    ensures TaggedPayload(r, tag, TaggedLine(r, tag, payload)) == Some(payload)
    ensures SplitN(TaggedLine(r, tag, payload), '|', 3)[0] == tag
  {
    hide Checksum, DigestToHex, DigestFromHex, SplitN;
    DigestField(Checksum(r, payload), '|');
    var f := [tag, DigestToHex(Checksum(r, payload)), payload];
    assert f[1..] == [DigestToHex(Checksum(r, payload)), payload] && f[1..][1..] == [payload];
    assert Join(f[1..], '|') == DigestToHex(Checksum(r, payload)) + ['|'] + payload;
    assert Join(f, '|') == TaggedLine(r, tag, payload);
    assert AllFree(f[..2], '|');
    SplitNJoin(f, '|', 3);
    assert SplitN(TaggedLine(r, tag, payload), '|', 3) == f;
  }

  /** A stored line is its tag, the digest of the payload's bytes and the payload, in this order. */
  lemma StoredLineText(r: Rules, tag: string, payload: string)
    requires tag == RECORD_TAG || tag == HEADER_TAG
    ensures var f := SplitN(TaggedLine(r, tag, payload), '|', 3);
            && |f| == 3 && f[0] == tag && f[2] == payload
            && DigestFromHex(f[1]) == Some(r.hash(Utf8(payload)))
  {
    hide DigestToHex, DigestFromHex, Utf8;
    TagsAreClean();
    var hex := DigestToHex(Checksum(r, payload));
    DigestField(Checksum(r, payload), '|');
    CutAt(tag, '|', hex + ['|'] + payload);
    CutAt(hex, '|', payload);
    assert SplitN(TaggedLine(r, tag, payload), '|', 3) == [tag, hex, payload];
  }

  /** So for the records and the header of a log. */
  lemma LogLineTexts(r: Rules, b: Block)
    ensures var f := SplitN(RecordLine(r, b), '|', 3);
            |f| == 3 && f[0] == "CCBLK1" && f[2] == EncodeBlock(b) && DigestFromHex(f[1]) == Some(r.hash(Utf8(f[2])))
    ensures var f := SplitN(HeaderLine(r, r.config), '|', 3);
            && |f| == 3 && f[0] == "CCCFG1" && f[2] == ChainFingerprint(r.config)
            && DigestFromHex(f[1]) == Some(r.hash(Utf8(f[2])))
  {
    hide TaggedLine, SplitN, DigestFromHex, Utf8, EncodeBlock, ChainFingerprint;
    StoredLineText(r, RECORD_TAG, EncodeBlock(b));
    StoredLineText(r, HEADER_TAG, ChainFingerprint(r.config));
  }

  lemma TaggedStart(r: Rules, tag: string, payload: string)
    ensures StartsWith(TaggedLine(r, tag, payload), tag)
    ensures TaggedLine(r, tag, payload)[..|tag|] == tag
  {
  }

  lemma HeaderDecodes(a: AddrCodec, r: Rules, c: ChainConfig)
    ensures DecodeLine(a, r, HeaderLine(r, c)) == Some(Header(ChainFingerprint(c)))
  {
    hide TaggedLine, TaggedPayload, ChainFingerprint;
    TagsAreClean();
    TaggedStart(r, HEADER_TAG, ChainFingerprint(c));
    TaggedRoundTrip(r, HEADER_TAG, ChainFingerprint(c));
  }

  lemma RecordDecodes(a: AddrCodec, r: Rules, b: Block)
    requires AddrCodecSound(a)
    ensures DecodeLine(a, r, RecordLine(r, b)) == Some(Record(b))
  {
    hide TaggedLine, TaggedPayload, DecodeMessage, EncodeMessage, AddrCodecSound;
    var line := RecordLine(r, b);
    TagsAreClean();
    TaggedStart(r, RECORD_TAG, EncodeBlock(b));
    TaggedRoundTrip(r, RECORD_TAG, EncodeBlock(b));
    assert RECORD_TAG != HEADER_TAG && |RECORD_TAG| == |HEADER_TAG|;
    BlockTextIsMessage(a, b);
    MessageRoundTrip(a, BlockMessage(b));
  }

  lemma BlockTextIsMessage(a: AddrCodec, b: Block)
    ensures EncodeBlock(b) == EncodeMessage(a, BlockMessage(b))
  {
  }

  /** Plain block lines, as older versions wrote them, are read as well. */
  lemma PlainLineDecodes(a: AddrCodec, r: Rules, b: Block)
    requires AddrCodecSound(a)
    ensures DecodeLine(a, r, EncodeBlock(b)) == Some(Record(b))
  {
    hide TaggedPayload, DecodeMessage, EncodeMessage, AddrCodecSound, BlockFields;
    BlockTextIsMessage(a, b);
    MessageRoundTrip(a, BlockMessage(b));
    BlockTag(b);
    BlockFieldsFree(b, '|');
    var f := BlockFields(b);
    assert EncodeBlock(b) == f[0] + ['|'] + Join(f[1..], '|');
    CutAt(f[0], '|', Join(f[1..], '|'));
    assert EncodeBlock(b)[0] == 'B';
  }

  // ---------------------------------------------------------------- torn lines

  /** Some proper prefix of the payload has the payload's checksum. */
  ghost predicate PrefixCollision(r: Rules, payload: string) {
    exists i :: 0 <= i < |payload| && Checksum(r, payload[..i]) == Checksum(r, payload)
  }

  /** No message type starts with the letter the storage tags start with. */
  lemma NoMessageStartsWithC(a: AddrCodec, line: string)
    requires line != [] && line[0] == 'C' && Free(line, '|') && Free(line, '\r') && Free(line, '\n')
    ensures DecodeMessage(a, line) == None
  {
    assert line[|line| - 1] in line;
    TrimKeeps(line);
    CutShrinks(line, '|');
    assert Split(line, '|') == [line];
  }

  /** A tagged line cut short no longer carries a payload, unless the checksum collides. */
  lemma TornPayload(r: Rules, tag: string, payload: string, n: nat)
    requires Free(tag, '|') && |tag| <= n < |TaggedLine(r, tag, payload)|
    requires !PrefixCollision(r, payload)
    ensures TaggedPayload(r, tag, TaggedLine(r, tag, payload)[..n]) == None
    ensures SplitN(TaggedLine(r, tag, payload)[..n], '|', 3)[0] == tag
  {
    hide Checksum, DigestToHex, DigestFromHex;
    var hex := DigestToHex(Checksum(r, payload));
    var line, torn := TaggedLine(r, tag, payload), TaggedLine(r, tag, payload)[..n];
    DigestField(Checksum(r, payload), '|');
    if n == |tag| {
      assert torn == tag;
      CutShrinks(tag, '|');
    } else {
      var rest := (hex + ['|'] + payload)[..n - |tag| - 1];
      assert torn == tag + ['|'] + rest;
      CutAt(tag, '|', rest);
      if |rest| <= |hex| {
        assert rest == hex[..|rest|];
        CutShrinks(rest, '|');
        assert SplitN(torn, '|', 3) == [tag, rest];
      } else {
        var k := |rest| - |hex| - 1;
        assert rest == hex + ['|'] + payload[..k];
        CutAt(hex, '|', payload[..k]);
        assert SplitN(torn, '|', 3) == [tag, hex, payload[..k]];
      }
    }
  }

  lemma PrefixClean(line: string, n: nat)
    requires Clean(line) && 0 < n <= |line|
    ensures Clean(line[..n]) && !Blank(line[..n])
  {
    assert line[..n][0] == line[0];
  }

  /** A torn header or record does not decode. */
  lemma TornLineFails(a: AddrCodec, r: Rules, tag: string, payload: string, n: nat)
    requires tag == RECORD_TAG || tag == HEADER_TAG
    requires Clean(TaggedLine(r, tag, payload)) && !PrefixCollision(r, payload)
    requires 0 < n < |TaggedLine(r, tag, payload)|
    ensures DecodeLine(a, r, TaggedLine(r, tag, payload)[..n]) == None
  {
    hide TaggedPayload, DecodeMessage, Checksum;
    var line, torn := TaggedLine(r, tag, payload), TaggedLine(r, tag, payload)[..n];
    TagsAreClean();
    TaggedStart(r, tag, payload);
    PrefixClean(line, n);
    if n < |tag| {
      assert torn == tag[..n];
      assert torn[0] == 'C';
      CutShrinks(torn, '|');
      NoMessageStartsWithC(a, torn);
    } else {
      TornPayload(r, tag, payload, n);
      assert torn[..|tag|] == tag;
    }
  }

  // ---------------------------------------------------------------- replay of whole lines

  lemma {:induction false} ReplayRecords(
      a: AddrCodec, r: Rules, blocks: seq<Block>, tail: seq<string>, complete: bool, seenBlock: bool, t: Tree)
    requires AddrCodecSound(a) && AllAccepted(r, t, blocks)
    ensures Replay(a, r, RecordLines(r, blocks) + tail, complete, true, seenBlock, t)
            == Replay(a, r, tail, complete, true, seenBlock || blocks != [], InsertAll(r, t, blocks))
    decreases |blocks|
  {
    hide Validate, Insert, DecodeLine, RecordLine, Blank, AddrCodecSound;
    var lines := RecordLines(r, blocks) + tail;
    if blocks == [] {
      assert lines == tail;
    } else {
      RecordDecodes(a, r, blocks[0]);
      RecordNotBlank(r, blocks[0]);
      assert lines[0] == RecordLine(r, blocks[0]);
      assert lines[1..] == RecordLines(r, blocks[1..]) + tail;
      ReplayRecords(a, r, blocks[1..], tail, complete, true, Insert(r, t, blocks[0]).0);
    }
  }

  lemma RecordNotBlank(r: Rules, b: Block)
    ensures !Blank(RecordLine(r, b))
  {
    hide RecordLine;
    RecordIsClean(r, b);
    PrefixClean(RecordLine(r, b), |RecordLine(r, b)|);
    assert RecordLine(r, b)[..|RecordLine(r, b)|] == RecordLine(r, b);
  }

  lemma HeaderNotBlank(r: Rules, c: ChainConfig)
    ensures !Blank(HeaderLine(r, c))
  {
    hide HeaderLine;
    HeaderIsClean(r, c);
    PrefixClean(HeaderLine(r, c), |HeaderLine(r, c)|);
    assert HeaderLine(r, c)[..|HeaderLine(r, c)|] == HeaderLine(r, c);
  }

  function Tail(q: string): seq<string> {
    if q == [] then [] else [q]
  }

  /** Loading whole header and record lines followed by an unfinished line. */
  lemma LoadWholeLines(a: AddrCodec, r: Rules, blocks: seq<Block>, q: string)
    requires AddrCodecSound(a) && AllAccepted(r, EMPTY, blocks) && Free(q, '\n')
    ensures Load(a, r, JoinLines([HeaderLine(r, r.config)] + RecordLines(r, blocks)) + q)
            == Replay(a, r, Tail(q), q == [], true, blocks != [], InsertAll(r, EMPTY, blocks))
  {
    hide Validate, Insert, InsertAll, AllAccepted, DecodeLine, RecordLine, HeaderLine, Blank, Clean, Lines, IsComplete,
         AddrCodecSound, ChainFingerprint;
    var h, records := HeaderLine(r, r.config), RecordLines(r, blocks);
    var lines := [h] + records;
    HeaderIsClean(r, r.config);
    RecordLinesAt(r, blocks);
    forall i | 0 <= i < |blocks|
      ensures Clean(RecordLine(r, blocks[i]))
    {
      RecordIsClean(r, blocks[i]);
    }
    LinesOfText(lines, q);
    HeaderDecodes(a, r, r.config);
    HeaderNotBlank(r, r.config);
    var all := lines + Tail(q);
    assert all[0] == h && all[1..] == records + Tail(q);
    ReplayRecords(a, r, blocks, Tail(q), q == [], false, EMPTY);
  }

  lemma TornTailDropped(
      a: AddrCodec, r: Rules, tag: string, payload: string, n: nat, seenHeader: bool, seenBlock: bool, t: Tree)
    requires tag == RECORD_TAG || tag == HEADER_TAG
    requires Clean(TaggedLine(r, tag, payload)) && !PrefixCollision(r, payload)
    requires n < |TaggedLine(r, tag, payload)|
    ensures var q := TaggedLine(r, tag, payload)[..n];
            Replay(a, r, Tail(q), q == [], seenHeader, seenBlock, t) == Ok(t)
  {
    hide DecodeLine, TaggedLine, Clean;
    var line := TaggedLine(r, tag, payload);
    if n > 0 {
      TornLineFails(a, r, tag, payload, n);
      PrefixClean(line, n);
      assert Tail(line[..n])[1..] == [];
    }
  }

  // ---------------------------------------------------------------- where a cut falls

  /** The text of exactly the first `j` records survives a cut at `k` (the newline after a record may be gone). */
  ghost predicate Survive(r: Rules, blocks: seq<Block>, k: nat, j: nat) {
    && j <= |blocks|
    && (j > 0 ==> |LogText(r, blocks[..j])| <= k + 1)
    && (j < |blocks| ==> k + 1 < |LogText(r, blocks[..j + 1])|)
  }

  /** No proper prefix of anything the log checksums has the same checksum. */
  ghost predicate ChecksumsTellPrefixes(r: Rules, blocks: seq<Block>) {
    && !PrefixCollision(r, ChainFingerprint(r.config))
    && forall i :: 0 <= i < |blocks| ==> !PrefixCollision(r, EncodeBlock(blocks[i]))
  }

  /** The text after `j > 0` records is a prefix of the text of the whole log. */
  lemma LogTextPrefix(r: Rules, blocks: seq<Block>, j: nat)
    requires 0 < j <= |blocks|
    ensures |LogText(r, blocks[..j])| <= |LogText(r, blocks)|
    ensures LogText(r, blocks)[..|LogText(r, blocks[..j])|] == LogText(r, blocks[..j])
    ensures LogText(r, blocks[..j]) == JoinLines([HeaderLine(r, r.config)] + RecordLines(r, blocks[..j]))
    ensures j < |blocks| ==>
              LogText(r, blocks[..j + 1]) == LogText(r, blocks[..j]) + RecordLine(r, blocks[j]) + "\n"
  {
    hide HeaderLine, RecordLine, RecordLines, LogText, JoinLines;
    LogTextIsLines(r, blocks);
    LogTextIsLines(r, blocks[..j]);
    var rest := LogLinesSplit(r, blocks, j);
    JoinLinesAppend(LogLines(r, blocks[..j]), rest);
    StartOfSum(JoinLines(LogLines(r, blocks[..j])), JoinLines(rest));
    if j < |blocks| {
      LogTextNext(r, blocks[..j], blocks[j]);
      assert blocks[..j + 1] == blocks[..j] + [blocks[j]];
    }
  }

  lemma StartOfSum(s: string, t: string)
    ensures (s + t)[..|s|] == s
  {
  }

  lemma LogLinesSplit(r: Rules, blocks: seq<Block>, j: nat) returns (rest: seq<string>)
    requires 0 < j <= |blocks|
    ensures LogLines(r, blocks) == LogLines(r, blocks[..j]) + rest
  {
    hide HeaderLine, RecordLine, RecordLines;
    RecordLinesAt(r, blocks);
    RecordLinesAt(r, blocks[..j]);
    RecordLinesLength(r, blocks);
    RecordLinesLength(r, blocks[..j]);
    var records := RecordLines(r, blocks);
    assert records[..j] == RecordLines(r, blocks[..j]);
    rest := records[j..];
    assert records == records[..j] + rest;
  }

  lemma LogTextNext(r: Rules, blocks: seq<Block>, b: Block)
    requires blocks != []
    ensures LogText(r, blocks + [b]) == LogText(r, blocks) + RecordLine(r, b) + "\n"
  {
    hide HeaderLine, RecordLine;
    assert (blocks + [b])[..|blocks|] == blocks;
    assert LogText(r, blocks) != [];
  }

  /** The cut falls right behind a record, in front of its newline. */
  lemma CutBeforeNewline(a: AddrCodec, r: Rules, blocks: seq<Block>, j: nat)
    requires AddrCodecSound(a) && AllAccepted(r, EMPTY, blocks) && 0 < j <= |blocks|
    ensures |LogText(r, blocks[..j])| > 0
    ensures var text := LogText(r, blocks[..j]);
            Load(a, r, text[..|text| - 1]) == Ok(InsertAll(r, EMPTY, blocks[..j]))
  {
    hide Validate, Insert, InsertAll, AllAccepted, DecodeLine, RecordLine, HeaderLine, Blank, Clean, AddrCodecSound, Load;
    var before, b := blocks[..j - 1], blocks[j - 1];
    var lines := [HeaderLine(r, r.config)] + RecordLines(r, before);
    assert blocks[..j] == before + [b];
    AllAcceptedPrefix(r, EMPTY, blocks, j);
    AllAcceptedPrefix(r, EMPTY, blocks, j - 1);
    LogTextIsLines(r, blocks[..j]);
    RecordLinesAppend(r, before, b);
    assert LogLines(r, blocks[..j]) == lines + [RecordLine(r, b)];
    JoinLinesAppend(lines, [RecordLine(r, b)]);
    OneLine(RecordLine(r, b));
    var text := LogText(r, blocks[..j]);
    assert text[..|text| - 1] == JoinLines(lines) + RecordLine(r, b);
    RecordIsClean(r, b);
    CleanFacts(RecordLine(r, b));
    LoadWholeLines(a, r, before, RecordLine(r, b));
    RecordDecodes(a, r, b);
    RecordNotBlank(r, b);
    InsertAllAppend(r, EMPTY, before, b);
    AllAcceptedAppend(r, EMPTY, before, b);
    assert Tail(RecordLine(r, b))[1..] == [];
  }

  lemma CleanFacts(line: string)
    requires Clean(line)
    ensures Free(line, '\n') && line != []
  {
  }

  /** The cut falls behind the newline of record `j - 1` and inside record `j`, or at the very end. */
  lemma CutInsideRecord(a: AddrCodec, r: Rules, blocks: seq<Block>, k: nat, j: nat)
    requires AddrCodecSound(a) && AllAccepted(r, EMPTY, blocks) && ChecksumsTellPrefixes(r, blocks)
    requires k <= |LogText(r, blocks)| && 0 < j && Survive(r, blocks, k, j)
    requires |LogText(r, blocks[..j])| <= k
    ensures Load(a, r, LogText(r, blocks)[..k]) == Ok(InsertAll(r, EMPTY, blocks[..j]))
  {
    hide Validate, Insert, InsertAll, AllAccepted, HeaderLine, RecordLine, RecordLines, AddrCodecSound, Load, Replay,
         LogText, PrefixCollision, JoinLines, Tail, Survive, EncodeBlock;
    SurviveBound(r, blocks, k, j);
    AllAcceptedPrefix(r, EMPTY, blocks, j);
    if j < |blocks| {
      TextUpTo(r, blocks, k, j);
      RecordPartDropped(a, r, blocks[..j], blocks[j], k - |LogText(r, blocks[..j])|);
    } else {
      LogTextPrefix(r, blocks, j);
      assert blocks[..j] == blocks;
      assert LogText(r, blocks)[..k] == LogText(r, blocks);
      IntactLogReplays(a, r, blocks);
    }
  }

  lemma TextUpTo(r: Rules, blocks: seq<Block>, k: nat, j: nat)
    requires 0 < j < |blocks| && k <= |LogText(r, blocks)|
    requires |LogText(r, blocks[..j])| <= k && k + 1 < |LogText(r, blocks[..j + 1])|
    ensures k - |LogText(r, blocks[..j])| < |RecordLine(r, blocks[j])|
    ensures LogText(r, blocks)[..k]
            == JoinLines([HeaderLine(r, r.config)] + RecordLines(r, blocks[..j]))
               + RecordLine(r, blocks[j])[..k - |LogText(r, blocks[..j])|]
  {
    hide LogText, JoinLines, HeaderLine, RecordLine, RecordLines;
    LogTextPrefix(r, blocks, j);
    LogTextPrefix(r, blocks, j + 1);
    CutInLine(LogText(r, blocks), LogText(r, blocks[..j]), RecordLine(r, blocks[j]), k);
  }

  lemma CutInLine(text: string, done: string, line: string, k: nat)
    requires |done| <= k < |done| + |line|
    requires |done + line + "\n"| <= |text| && text[..|done + line + "\n"|] == done + line + "\n"
    ensures text[..k] == done + line[..k - |done|]
  {
    assert text[..k] == (done + line + "\n")[..k];
  }

  /** Whole lines followed by a torn record. */
  lemma RecordPartDropped(a: AddrCodec, r: Rules, blocks: seq<Block>, b: Block, n: nat)
    requires AddrCodecSound(a) && AllAccepted(r, EMPTY, blocks)
    requires !PrefixCollision(r, EncodeBlock(b)) && n < |RecordLine(r, b)|
    ensures Load(a, r, JoinLines([HeaderLine(r, r.config)] + RecordLines(r, blocks)) + RecordLine(r, b)[..n])
            == Ok(InsertAll(r, EMPTY, blocks))
  {
    hide Validate, Insert, InsertAll, AllAccepted, HeaderLine, TaggedLine, AddrCodecSound, Load, Replay, JoinLines, Tail,
         PrefixCollision, Clean, EncodeBlock;
    RecordIsClean(r, b);
    PrefixFree(RecordLine(r, b), n);
    LoadWholeLines(a, r, blocks, RecordLine(r, b)[..n]);
    TornTailDropped(a, r, RECORD_TAG, EncodeBlock(b), n, true, blocks != [], InsertAll(r, EMPTY, blocks));
  }

  lemma NothingLeft(a: AddrCodec, r: Rules, t: Tree)
    ensures Replay(a, r, Tail([]), true, true, true, t) == Ok(t)
  {
  }

  lemma PrefixFree(line: string, n: nat)
    requires Clean(line) && n <= |line|
    ensures Free(line[..n], '\n')
  {
  }

  /** The cut falls before the end of the first record. */
  lemma CutBeforeFirst(a: AddrCodec, r: Rules, blocks: seq<Block>, k: nat)
    requires AddrCodecSound(a) && AllAccepted(r, EMPTY, blocks) && ChecksumsTellPrefixes(r, blocks)
    requires k <= |LogText(r, blocks)| && Survive(r, blocks, k, 0)
    ensures Load(a, r, LogText(r, blocks)[..k]) == Ok(EMPTY)
  {
    hide Validate, Insert, DecodeLine, TaggedLine, Clean, AddrCodecSound, Load, Replay, PrefixCollision, EncodeBlock,
         ChainFingerprint;
    if blocks == [] {
      EmptyLoads(a, r);
      assert LogText(r, blocks)[..k] == [];
    } else {
      var text := LogText(r, blocks);
      LogTextPrefix(r, blocks, 1);
      var h, line := HeaderLine(r, r.config), RecordLine(r, blocks[0]);
      assert blocks[..1] == [blocks[0]];
      FirstLines(r, blocks[0]);
      var first := h + "\n" + line + "\n";
      assert text[..k] == first[..k];
      HeaderIsClean(r, r.config);
      RecordIsClean(r, blocks[0]);
      if k <= |h| {
        assert first[..k] == h[..k];
        LoadHeaderPart(a, r, k);
      } else {
        var n := k - |h| - 1;
        OneLine(h);
        assert [h] + RecordLines(r, []) == [h];
        CutInLine(first, h + "\n", line, k);
        NothingInserted(r);
        RecordPartDropped(a, r, [], blocks[0], n);
      }
    }
  }

  lemma EmptyLoads(a: AddrCodec, r: Rules)
    ensures Load(a, r, []) == Ok(EMPTY)
  {
    CutShrinks([], '\n');
  }

  lemma FirstLines(r: Rules, b: Block)
    ensures LogText(r, [b]) == HeaderLine(r, r.config) + "\n" + RecordLine(r, b) + "\n"
  {
    hide HeaderLine, RecordLine;
    assert [b][..0] == [];
  }

  /** Part of the header line, or all of it, and nothing else. */
  lemma LoadHeaderPart(a: AddrCodec, r: Rules, k: nat)
    requires !PrefixCollision(r, ChainFingerprint(r.config))
    requires k <= |HeaderLine(r, r.config)|
    ensures Load(a, r, HeaderLine(r, r.config)[..k]) == Ok(EMPTY)
  {
    hide DecodeLine, TaggedLine, Clean, PrefixCollision, ChainFingerprint, Lines;
    var h := HeaderLine(r, r.config);
    var q := h[..k];
    HeaderIsClean(r, r.config);
    PrefixFree(h, k);
    LinesOfText([], q);
    assert JoinLines([]) + q == q && [] + Tail(q) == Tail(q);
    assert Load(a, r, q) == Replay(a, r, Tail(q), q == [], false, false, EMPTY);
    if k < |h| {
      TornTailDropped(a, r, HEADER_TAG, ChainFingerprint(r.config), k, false, false, EMPTY);
    } else {
      assert q == h;
      HeaderDecodes(a, r, r.config);
      HeaderNotBlank(r, r.config);
      LineNotEmpty(r, r.config);
      assert Tail(h) == [h] && [h][1..] == [];
      HeaderAlone(a, r, h);
    }
  }

  lemma HeaderAlone(a: AddrCodec, r: Rules, h: string)
    requires !Blank(h) && DecodeLine(a, r, h) == Some(Header(ChainFingerprint(r.config)))
    ensures Replay(a, r, [h], false, false, false, EMPTY) == Ok(EMPTY)
  {
    hide DecodeLine, ChainFingerprint;
    assert [h][1..] == [];
  }

  /**
   * Crash recovery. Cut the log of accepted blocks anywhere: loading what is left succeeds and gives the tree after
   * exactly the records whose text survived. The only way out is a checksum that some proper prefix of a payload shares.
   */
  lemma CutLogReplays(a: AddrCodec, r: Rules, blocks: seq<Block>, k: nat, j: nat)
    requires AddrCodecSound(a) && AllAccepted(r, EMPTY, blocks) && ChecksumsTellPrefixes(r, blocks)
    requires k <= |LogText(r, blocks)| && Survive(r, blocks, k, j)
    ensures Load(a, r, LogText(r, blocks)[..k]) == Ok(InsertAll(r, EMPTY, blocks[..j]))
  {
    hide Validate, Insert, InsertAll, AllAccepted, AddrCodecSound, Load, ChecksumsTellPrefixes, Survive, LogText;
    if j == 0 {
      CutBeforeFirst(a, r, blocks, k);
      assert blocks[..0] == [];
      NothingInserted(r);
    } else {
      SurviveBound(r, blocks, k, j);
      if |LogText(r, blocks[..j])| <= k {
        CutInsideRecord(a, r, blocks, k, j);
      } else {
        CutBeforeNewline(a, r, blocks, j);
        CutAtRecordEnd(r, blocks, k, j);
      }
    }
  }

  lemma SurviveBound(r: Rules, blocks: seq<Block>, k: nat, j: nat)
    requires Survive(r, blocks, k, j) && j > 0
    ensures j <= |blocks| && |LogText(r, blocks[..j])| <= k + 1
    ensures j < |blocks| ==> k + 1 < |LogText(r, blocks[..j + 1])|
  {
    hide LogText;
  }

  lemma CutAtRecordEnd(r: Rules, blocks: seq<Block>, k: nat, j: nat)
    requires 0 < j <= |blocks| && |LogText(r, blocks[..j])| == k + 1
    ensures k <= |LogText(r, blocks)|
    ensures LogText(r, blocks)[..k] == LogText(r, blocks[..j])[..k]
  {
    hide LogText, JoinLines, HeaderLine, RecordLine;
    LogTextPrefix(r, blocks, j);
  }

  lemma NothingInserted(r: Rules)
    ensures InsertAll(r, EMPTY, []) == EMPTY
  {
  }

  /** Every cut has its number of surviving records, so the theorem covers every byte position. */
  lemma {:induction false} EveryCutHasSurvivors(r: Rules, blocks: seq<Block>, k: nat) returns (j: nat)
    requires k <= |LogText(r, blocks)|
    ensures Survive(r, blocks, k, j)
  {
    hide LogText;
    j := 0;
    while j < |blocks| && |LogText(r, blocks[..j + 1])| <= k + 1
      invariant j <= |blocks|
      invariant j > 0 ==> |LogText(r, blocks[..j])| <= k + 1
    {
      j := j + 1;
    }
  }

  /** An intact log gives back the whole tree; no assumption on checksums is needed. */
  lemma IntactLogReplays(a: AddrCodec, r: Rules, blocks: seq<Block>)
    requires AddrCodecSound(a) && AllAccepted(r, EMPTY, blocks)
    ensures Load(a, r, LogText(r, blocks)) == Ok(InsertAll(r, EMPTY, blocks))
  {
    hide Validate, Insert, InsertAll, AllAccepted, AddrCodecSound, Load, Replay, JoinLines, RecordLines, HeaderLine,
         RecordLine, LogText, Tail;
    if blocks == [] {
      EmptyLoads(a, r);
      NothingInserted(r);
      EmptyLog(r);
    } else {
      LogTextPrefix(r, blocks, |blocks|);
      assert blocks[..|blocks|] == blocks;
      LoadWholeLines(a, r, blocks, []);
      assert LogText(r, blocks) + [] == LogText(r, blocks);
      NothingLeft(a, r, InsertAll(r, EMPTY, blocks));
    }
  }

  lemma EmptyLog(r: Rules)
    ensures LogText(r, []) == []
  {
  }

  /**
   * A log is read strictly: if it loads, every line that is not blank decoded, except perhaps the last line of a log that
   * does not end in a newline.
   */
  lemma {:induction false} CompleteLogIsStrict(
      a: AddrCodec, r: Rules, lines: seq<string>, complete: bool, seenHeader: bool, seenBlock: bool, t: Tree, i: nat)
    requires Replay(a, r, lines, complete, seenHeader, seenBlock, t).Ok?
    requires i < |lines| && !Blank(lines[i]) && (complete || i + 1 < |lines|)
    ensures DecodeLine(a, r, lines[i]).Some?
    decreases |lines|
  {
    hide Validate, Insert, DecodeLine, Blank;
    if i > 0 {
      if Blank(lines[0]) {
        CompleteLogIsStrict(a, r, lines[1..], complete, seenHeader, seenBlock, t, i - 1);
      } else {
        match DecodeLine(a, r, lines[0])
        case Some(Header(f)) => CompleteLogIsStrict(a, r, lines[1..], complete, true, seenBlock, t, i - 1);
        case Some(Record(b)) => CompleteLogIsStrict(a, r, lines[1..], complete, seenHeader, true, Insert(r, t, b).0, i - 1);
        case None =>
      }
    }
  }

  /** The line is a storage header. */
  predicate IsHeader(a: AddrCodec, r: Rules, line: string) {
    !Blank(line) && DecodeLine(a, r, line).Some? && DecodeLine(a, r, line).value.Header?
  }

  /**
   * If a log loads, a header in it carries the fingerprint of the configured chain, nothing but blank lines stand before
   * it, and there is no other.
   */
  lemma {:induction false} HeaderComesFirst(
      a: AddrCodec, r: Rules, lines: seq<string>, complete: bool, seenHeader: bool, seenBlock: bool, t: Tree, i: nat)
    requires Replay(a, r, lines, complete, seenHeader, seenBlock, t).Ok?
    requires i < |lines| && IsHeader(a, r, lines[i])
    ensures !seenHeader && !seenBlock
    ensures DecodeLine(a, r, lines[i]).value.fingerprint == ChainFingerprint(r.config)
    ensures forall j :: 0 <= j < i ==> Blank(lines[j])
    ensures forall j :: i < j < |lines| ==> !IsHeader(a, r, lines[j])
    decreases |lines|
  {
    hide Validate, Insert, DecodeLine, Blank, ChainFingerprint;
    if i == 0 {
      forall j | 0 < j < |lines|
        ensures !IsHeader(a, r, lines[j])
      {
        if IsHeader(a, r, lines[j]) {
          HeaderComesFirst(a, r, lines[1..], complete, true, seenBlock, t, j - 1);
        }
      }
    } else {
      if Blank(lines[0]) {
        HeaderComesFirst(a, r, lines[1..], complete, seenHeader, seenBlock, t, i - 1);
        forall j | i < j < |lines|
          ensures !IsHeader(a, r, lines[j])
        {
          assert lines[j] == lines[1..][j - 1];
        }
        forall j | 0 < j < i
          ensures Blank(lines[j])
        {
          assert lines[j] == lines[1..][j - 1];
        }
      } else {
        match DecodeLine(a, r, lines[0])
        case Some(Header(f)) => HeaderComesFirst(a, r, lines[1..], complete, true, seenBlock, t, i - 1);
        case Some(Record(b)) =>
          HeaderComesFirst(a, r, lines[1..], complete, seenHeader, true, Insert(r, t, b).0, i - 1);
        case None =>
      }
    }
  }

  /** Blank lines in front of other lines change nothing. */
  lemma BlankLineIgnored(
      a: AddrCodec, r: Rules, blank: string, lines: seq<string>, complete: bool, seenHeader: bool, seenBlock: bool, t: Tree)
    requires Blank(blank)
    ensures Replay(a, r, [blank] + lines, complete, seenHeader, seenBlock, t)
            == Replay(a, r, lines, complete, seenHeader, seenBlock, t)
  {
    hide Validate, Insert, DecodeLine, Blank;
    assert ([blank] + lines)[1..] == lines;
  }

  /** A finished line may end in a carriage return as well. */
  lemma CarriageReturnIgnored(line: string, rest: string)
    requires Free(line, '\n') && (line == [] || line[|line| - 1] != '\r')
    ensures Lines(line + "\r\n" + rest) == Lines(line + "\n" + rest) == [line] + Lines(rest)
  {
    var ended := line + ['\r'];
    assert line + "\r\n" + rest == ended + ['\n'] + rest;
    assert line + "\n" + rest == line + ['\n'] + rest;
    CutAt(ended, '\n', rest);
    CutAt(line, '\n', rest);
  }

  /** A record whose block is refused ends the load with the reason of the refusal. */
  lemma RefusedBlockIsNamed(
      a: AddrCodec, r: Rules, blocks: seq<Block>, b: Block, tail: seq<string>, complete: bool, cause: ForkChoiceError)
    requires AddrCodecSound(a) && AllAccepted(r, EMPTY, blocks)
    requires Insert(r, InsertAll(r, EMPTY, blocks), b).1 == Err(cause)
    ensures Replay(a, r, RecordLines(r, blocks) + ([RecordLine(r, b)] + tail), complete, true, false, EMPTY)
            == Err(StoredBlockInvalid(cause))
  {
    hide Validate, Insert, InsertAll, AllAccepted, DecodeLine, RecordLine, RecordLines, Blank, AddrCodecSound;
    ReplayRecords(a, r, blocks, [RecordLine(r, b)] + tail, complete, false, EMPTY);
    RecordDecodes(a, r, b);
    RecordNotBlank(r, b);
  }

  /** The log of a chain with other parameters is refused because of its header. */
  lemma OtherChainRefused(a: AddrCodec, r: Rules, c: ChainConfig, rest: string)
    requires c != r.config
    ensures Load(a, r, HeaderLine(r, c) + "\n" + rest) == Err(FingerprintMismatch)
  {
    hide DecodeLine, HeaderLine, Blank, Clean, ChainFingerprint;
    var line := HeaderLine(r, c);
    var content := line + "\n" + rest;
    HeaderIsClean(r, c);
    CleanFacts(line);
    HeaderDecodes(a, r, c);
    HeaderNotBlank(r, c);
    FingerprintIdentifiesConfig(c, r.config);
    assert content == line + ['\n'] + rest;
    CutAt(line, '\n', rest);
    CleanStrip(line);
    assert Lines(content)[0] == line;
  }

  lemma CleanStrip(line: string)
    requires Clean(line)
    ensures StripReturn(line) == line
  {
    assert line[|line| - 1] in line;
  }

  // ---------------------------------------------------------------- bytes and characters

  ghost predicate NoneBeyondAscii(s: string) {
    forall c: char :: c as int >= 128 ==> Free(s, c)
  }

  lemma NoneBeyondIsAscii(s: string)
    requires NoneBeyondAscii(s)
    ensures Ascii(s)
  {
    forall i | 0 <= i < |s|
      ensures s[i] as int < 128
    {
      assert s[i] as int >= 128 ==> Free(s, s[i]);
    }
  }

  lemma TaggedAscii(r: Rules, tag: string, payload: string)
    requires tag == RECORD_TAG || tag == HEADER_TAG
    requires NoneBeyondAscii(payload)
    ensures NoneBeyondAscii(TaggedLine(r, tag, payload))
  {
    hide DigestToHex, Checksum;
    forall c: char | c as int >= 128
      ensures Free(TaggedLine(r, tag, payload), c)
    {
      DigestField(Checksum(r, payload), c);
      assert Free(payload, c);
    }
  }

  lemma RecordAscii(r: Rules, b: Block)
    ensures NoneBeyondAscii(RecordLine(r, b))
  {
    hide TaggedLine, BlockFields;
    forall c: char | c as int >= 128
      ensures Free(EncodeBlock(b), c)
    {
      BlockFieldsFree(b, c);
      JoinFree(BlockFields(b), '|', c);
    }
    TaggedAscii(r, RECORD_TAG, EncodeBlock(b));
  }

  lemma HeaderAscii(r: Rules)
    ensures NoneBeyondAscii(HeaderLine(r, r.config))
  {
    hide TaggedLine, ChainFingerprint;
    forall c: char | c as int >= 128
      ensures Free(ChainFingerprint(r.config), c)
    {
      FingerprintFree(r.config, c);
    }
    TaggedAscii(r, HEADER_TAG, ChainFingerprint(r.config));
  }

  lemma NothingBeyondAscii()
    ensures NoneBeyondAscii([])
  {
  }

  lemma AppendAscii(r: Rules, content: string, b: Block)
    requires NoneBeyondAscii(content)
    ensures NoneBeyondAscii(Append(r, content, b))
  {
    hide RecordLine, HeaderLine;
    RecordAscii(r, b);
    HeaderAscii(r);
    forall c: char | c as int >= 128
      ensures Free(Append(r, content, b), c)
    {
      assert Free(content, c) && Free(RecordLine(r, b), c) && Free(HeaderLine(r, r.config), c);
    }
  }

  /** The text of a log is ASCII. */
  lemma {:induction false} LogIsAscii(r: Rules, blocks: seq<Block>)
    ensures NoneBeyondAscii(LogText(r, blocks))
    ensures Ascii(LogText(r, blocks))
  {
    hide RecordLine, HeaderLine, NoneBeyondAscii;
    if blocks == [] {
      NothingBeyondAscii();
    } else {
      LogIsAscii(r, blocks[..|blocks| - 1]);
      AppendAscii(r, LogText(r, blocks[..|blocks| - 1]), blocks[|blocks| - 1]);
    }
    NoneBeyondIsAscii(LogText(r, blocks));
  }

  lemma {:induction false} AsciiBytes(s: string)
    requires Ascii(s)
    ensures |Utf8(s)| == |s|
    ensures forall i :: 0 <= i < |s| ==> Utf8(s)[i] as int == s[i] as int
  {
    if s != [] {
      AsciiBytes(s[1..]);
    }
  }

  /** So cutting the file's bytes is cutting its characters: every byte position of the log is one of `CutLogReplays`. */
  lemma ByteCutIsCharCut(r: Rules, blocks: seq<Block>, k: nat)
    ensures |Utf8(LogText(r, blocks))| == |LogText(r, blocks)|
    ensures k <= |LogText(r, blocks)| ==> Utf8(LogText(r, blocks))[..k] == Utf8(LogText(r, blocks)[..k])
  {
    hide LogText, Utf8;
    var s := LogText(r, blocks);
    LogIsAscii(r, blocks);
    AsciiBytes(s);
    if k <= |s| {
      AsciiBytes(s[..k]);
    }
  }

  lemma SurviveLength(r: Rules, blocks: seq<Block>, k: nat, j: nat)
    requires Survive(r, blocks, k, j)
    ensures j <= |blocks|
  {
  }
}

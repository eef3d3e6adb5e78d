/**
 * The block log (crates/chesscoin-node/src/runtime.rs): checksummed lines, appended one per block, replayed on start. A
 * log that was cut anywhere by a crash still yields the state after the records that survived.
 */
module Storage {
  import opened Prelude
  import opened Domain
  import opened Validation
  import opened ForkTree
  import opened Chain
  import opened ForkChoice
  import opened Text
  import opened Wire

  // ---------------------------------------------------------------- lines

  const RECORD_TAG := "CCBLK1"
  const HEADER_TAG := "CCCFG1"

  function Checksum(r: Rules, payload: string): Digest {
    r.hash(Utf8(payload))
  }

  /** A tag, the payload's checksum and the payload, separated by bars. */
  function TaggedLine(r: Rules, tag: string, payload: string): string {
    tag + ['|'] + (DigestToHex(Checksum(r, payload)) + ['|'] + payload)
  }

  /** The payload of a line with this tag, if it is complete and its checksum is right. */
  function TaggedPayload(r: Rules, tag: string, line: string): Option<string> {
    var fields := SplitN(line, '|', 3);
    if |fields| != 3 || fields[0] != tag then None
    else if DigestFromHex(fields[1]) != Some(Checksum(r, fields[2])) then None
    else Some(fields[2])
  }

  /** `encode_block_message`: it does not depend on how addresses are printed. */
  function EncodeBlock(b: Block): string {
    Join(BlockFields(b), '|')
  }

  function DecodeBlock(a: AddrCodec, line: string): Option<Block> {
    match DecodeMessage(a, line)
    case Some(BlockMessage(b)) => Some(b)
    case _ => None
  }

  /** `encode_storage_header`. */
  function HeaderLine(r: Rules, config: ChainConfig): string {
    TaggedLine(r, HEADER_TAG, ChainFingerprint(config))
  }

  /** `encode_storage_record`. */
  function RecordLine(r: Rules, b: Block): string {
    TaggedLine(r, RECORD_TAG, EncodeBlock(b))
  }

  datatype StorageLine = Header(fingerprint: string) | Record(block: Block)

  function StartsWith(s: string, prefix: string): bool {
    |prefix| <= |s| && s[..|prefix|] == prefix
  }

  /** `decode_storage_line`, including plain block lines from older logs. */
  function DecodeLine(a: AddrCodec, r: Rules, line: string): Option<StorageLine> {
    if StartsWith(line, HEADER_TAG) then
      match TaggedPayload(r, HEADER_TAG, line)
      case Some(fingerprint) => Some(Header(fingerprint))
      case None => None
    else
      var payload := if SplitN(line, '|', 3)[0] != RECORD_TAG then Some(line) else TaggedPayload(r, RECORD_TAG, line);
      if payload.None? then None
      else
        match DecodeBlock(a, payload.value)
        case Some(b) => Some(Record(b))
        case None => None
  }

  /** What `append_block` makes of the file: the first append also writes the header. */
  function Append(r: Rules, content: string, b: Block): string {
    (if content == [] then HeaderLine(r, r.config) + "\n" else content) + RecordLine(r, b) + "\n"
  }

  /** The file after appending the blocks in order. */
  function LogText(r: Rules, blocks: seq<Block>): string {
    if blocks == [] then [] else Append(r, LogText(r, blocks[..|blocks| - 1]), blocks[|blocks| - 1])
  }

  // ---------------------------------------------------------------- replay

  function StripReturn(line: string): string {
    if line != [] && line[|line| - 1] == '\r' then line[..|line| - 1] else line
  }

  /** Rust's `lines()`: a last line without a newline counts if it is not empty, and keeps its carriage return. */
  function Lines(content: string): seq<string>
    decreases |content|
  {
    CutShrinks(content, '\n');
    match Cut(content, '\n')
    case None => if content == [] then [] else [content]
    case Some((line, rest)) => [StripReturn(line)] + Lines(rest)
  }

  /** Unicode white space, which `trim` removes. */
  predicate IsSpace(c: char) {
    var x := c as int;
    || 9 <= x <= 13 || x == 0x20 || x == 0x85 || x == 0xA0 || x == 0x1680 || 0x2000 <= x <= 0x200A
    || x == 0x2028 || x == 0x2029 || x == 0x202F || x == 0x205F || x == 0x3000
  }

  predicate Blank(line: string) {
    forall i :: 0 <= i < |line| ==> IsSpace(line[i])
  }

  datatype LoadError =
    | DuplicateHeader
    | HeaderAfterBlocks
    | FingerprintMismatch
    | InvalidLine
    | StoredBlockInvalid(cause: ForkChoiceError)

  /** The loop of `load_chains` over the remaining lines. */
  function Replay(a: AddrCodec, r: Rules, lines: seq<string>, complete: bool, seenHeader: bool, seenBlock: bool, t: Tree):
    Result<Tree, LoadError>
    decreases |lines|
  {
    if lines == [] then Ok(t)
    else if Blank(lines[0]) then Replay(a, r, lines[1..], complete, seenHeader, seenBlock, t)
    else
      match DecodeLine(a, r, lines[0])
      case Some(Header(fingerprint)) =>
        if seenHeader then Err(DuplicateHeader)
        else if seenBlock then Err(HeaderAfterBlocks)
        else if fingerprint != ChainFingerprint(r.config) then Err(FingerprintMismatch)
        else Replay(a, r, lines[1..], complete, true, seenBlock, t)
      case Some(Record(b)) =>
        (match Insert(r, t, b).1
         case Err(cause) => Err(StoredBlockInvalid(cause))
         case Ok(_) => Replay(a, r, lines[1..], complete, seenHeader, true, Insert(r, t, b).0))
      case None => if !complete && |lines| == 1 then Ok(t) else Err(InvalidLine)
  }

  function IsComplete(content: string): bool {
    content == [] || content[|content| - 1] == '\n'
  }

  /** The tree that `load_chains` rebuilds from the file's content. */
  function Load(a: AddrCodec, r: Rules, content: string): Result<Tree, LoadError> {
    Replay(a, r, Lines(content), IsComplete(content), false, false, EMPTY)
  }

  /** `load_chains`; `None` stands for a file that does not exist. */
  method LoadChains(a: AddrCodec, r: Rules, file: Option<string>)
    returns (result: Result<(ChainState, ForkChoiceState), LoadError>)
    ensures file == None ==> result.Ok? && result.value.0.blocks == [] && result.value.1.View() == EMPTY
    ensures file.Some? ==>
              match Load(a, r, file.value)
              case Err(e) => result == Err(e)
              case Ok(t) =>
                && result.Ok?
                && result.value.1.View() == t
                && WellFormed(r, t) && Linked(t)
                && result.value.0.blocks == BestChain(t)
    ensures result.Ok? ==> result.value.0.rules == r && result.value.1.rules == r
  {
    hide Validate, IsBetterTip, WellFormed, Insert, DecodeLine, Blank, Lines;
    var forkChoice := new ForkChoiceState(r);
    EmptyIsWellFormed(r);
    if file.None? {
      var chain := new ChainState(r);
      return Ok((chain, forkChoice));
    }
    var hasCompleteTail := IsComplete(file.value);
    var lines := Lines(file.value);
    var seenHeader, seenBlock := false, false;
    var index := 0;
    assert lines[0..] == lines;
    while index < |lines|
      invariant 0 <= index <= |lines|
      invariant fresh(forkChoice) && forkChoice.rules == r
      invariant WellFormed(r, forkChoice.View())
      invariant Load(a, r, file.value) ==
                  Replay(a, r, lines[index..], hasCompleteTail, seenHeader, seenBlock, forkChoice.View())
    {
      var line := lines[index];
      assert lines[index..][0] == line && lines[index..][1..] == lines[index + 1..];
      index := index + 1;
      if Blank(line) {
        continue;
      }
      match DecodeLine(a, r, line) {
        case Some(Header(fingerprint)) =>
          if seenHeader {
            return Err(DuplicateHeader);
          }
          if seenBlock {
            return Err(HeaderAfterBlocks);
          }
          if fingerprint != ChainFingerprint(r.config) {
            return Err(FingerprintMismatch);
          }
          seenHeader := true;
        case Some(Record(block)) =>
          var inserted := forkChoice.InsertBlock(block);
          if inserted.Err? {
            return Err(StoredBlockInvalid(inserted.error));
          }
          seenBlock := true;
        case None =>
          if !hasCompleteTail && index == |lines| {
            break;
          }
          return Err(InvalidLine);
      }
    }
    assert Load(a, r, file.value) == Ok(forkChoice.View());
    BestChainFacts(r, forkChoice.View());
    var best := forkChoice.ListBestChain();
    var rebuilt := ChainFromBlocks(r, best);
    return Ok((rebuilt.value, forkChoice));
  }
}

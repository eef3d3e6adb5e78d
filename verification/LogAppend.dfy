/**
 * Appending to a log that was cut. Loading ignores an unfinished last line but leaves it in the file, and the next append
 * continues on that line; this module says exactly when the file still loads afterwards.
 */
module LogAppend {
  import opened Prelude
  import opened Domain
  import opened Validation
  import opened ForkTree
  import opened ForkOrder
  import opened Text
  import opened Wire
  import opened Storage
  import opened LogRecovery

  /** `payload`, broken off and continued with `next`, has the checksum of `payload`. */
  ghost predicate GlueCollision(r: Rules, payload: string, next: string) {
    exists i :: 0 <= i <= |payload| && Checksum(r, payload[..i] + next) == Checksum(r, payload)
  }

  /** Nothing in the log keeps its checksum when it is broken off and continued with the record of `b`. */
  ghost predicate ChecksumsTellGlue(r: Rules, blocks: seq<Block>, b: Block) {
    && !GlueCollision(r, ChainFingerprint(r.config), RecordLine(r, b))
    && forall i :: 0 <= i < |blocks| ==> !GlueCollision(r, EncodeBlock(blocks[i]), RecordLine(r, b))
  }

  // ---------------------------------------------------------------- glued lines do not decode

  lemma {:induction false} TrimKeepsStart(line: string)
    requires line != [] && line[0] != '\r' && line[0] != '\n'
    ensures TrimEnd(line) != [] && TrimEnd(line)[0] == line[0]
  {
    if |line| > 1 && (line[|line| - 1] == '\r' || line[|line| - 1] == '\n') {
      TrimKeepsStart(line[..|line| - 1]);
    }
  }

  /** No message type starts with a C. */
  lemma NoMessageTypeStartsWithC(a: AddrCodec, line: string)
    requires line != [] && line[0] == 'C'
    ensures DecodeMessage(a, line) == None
  {
    TrimKeepsStart(line);
    var trimmed := TrimEnd(line);
    CutShrinks(trimmed, '|');
    var f := Split(trimmed, '|');
    if Cut(trimmed, '|').Some? {
      var (before, after) := Cut(trimmed, '|').value;
      assert before != [] && before[0] == trimmed[0];
    }
    assert f[0] != [] && f[0][0] == 'C';
  }

  lemma {:induction false} NotHex(s: string, i: nat)
    requires |s| % 2 == 0 && i < |s| && HexValue(s[i]) == None
    ensures BytesOf(s) == None
  {
    if i >= 2 {
      NotHex(s[2..], i - 2);
    }
  }

  /** A line whose text before the first bar is not the tag alone. */
  lemma WrongTagFails(a: AddrCodec, r: Rules, start: string, rest: string)
    requires start != [] && start[0] == 'C' && Free(start, '|') && |start| > 6
    ensures DecodeLine(a, r, start + ['|'] + rest) == None
  {
    var line := start + ['|'] + rest;
    CutAt(start, '|', rest);
    assert SplitN(line, '|', 3)[0] == start;
    assert line[0] == 'C';
    NoMessageTypeStartsWithC(a, line);
  }

  /** A broken checksum field: digits and then a tag. */
  lemma BrokenChecksumFails(r: Rules, tag: string, digits: string, payload: string)
    requires Free(tag, '|') && Free(digits, '|')
    ensures TaggedPayload(r, tag, tag + ['|'] + (digits + RECORD_TAG + ['|'] + payload)) == None
    ensures SplitN(tag + ['|'] + (digits + RECORD_TAG + ['|'] + payload), '|', 3)[0] == tag
  {
    var field := digits + RECORD_TAG;
    assert digits + RECORD_TAG + ['|'] + payload == field + ['|'] + payload;
    CutAt(tag, '|', field + ['|'] + payload);
    assert Free(field, '|');
    CutAt(field, '|', payload);
    assert SplitN(tag + ['|'] + (field + ['|'] + payload), '|', 3) == [tag, field, payload];
    assert field[|digits| + 3] == 'L';
    if |field| == 64 {
      NotHex(field, |digits| + 3);
    }
  }

  /** Everything up to somewhere in the payload, continued with other text. */
  lemma GluedPayloadFails(r: Rules, tag: string, payload: string, i: nat, next: string)
    requires Free(tag, '|') && i <= |payload|
    requires Checksum(r, payload[..i] + next) != Checksum(r, payload)
    ensures var hex := DigestToHex(Checksum(r, payload));
            && TaggedPayload(r, tag, tag + ['|'] + (hex + ['|'] + (payload[..i] + next))) == None
            && SplitN(tag + ['|'] + (hex + ['|'] + (payload[..i] + next)), '|', 3)[0] == tag
  {
    hide Checksum, DigestToHex, DigestFromHex;
    var hex, glued := DigestToHex(Checksum(r, payload)), payload[..i] + next;
    DigestField(Checksum(r, payload), '|');
    CutAt(tag, '|', hex + ['|'] + glued);
    CutAt(hex, '|', glued);
    assert SplitN(tag + ['|'] + (hex + ['|'] + glued), '|', 3) == [tag, hex, glued];
  }

  /** Where a tagged line can break off, and how it then continues. */
  lemma GluedShapes(r: Rules, tag: string, payload: string, n: nat, next: string)
    requires |tag| == 6 && 0 < n <= |TaggedLine(r, tag, payload)|
    ensures var hex, glued := DigestToHex(Checksum(r, payload)), TaggedLine(r, tag, payload)[..n] + next;
            && (n <= 6 ==> glued == tag[..n] + next)
            && (6 < n <= 7 + |hex| ==> glued == tag + ['|'] + (hex[..n - 7] + next))
            && (7 + |hex| < n ==>
                  && n - 8 - |hex| <= |payload|
                  && glued == tag + ['|'] + (hex + ['|'] + (payload[..n - 8 - |hex|] + next)))
  {
    hide Checksum, DigestToHex;
    var hex, line := DigestToHex(Checksum(r, payload)), TaggedLine(r, tag, payload);
    if 6 < n <= 7 + |hex| {
      assert line[..n] == tag + ['|'] + hex[..n - 7];
    } else if 7 + |hex| < n {
      assert line[..n] == tag + ['|'] + (hex + ['|'] + payload[..n - 8 - |hex|]);
    }
  }

  /** An unfinished header or record continued with a record line does not decode. */
  lemma GluedLineFails(a: AddrCodec, r: Rules, tag: string, payload: string, n: nat, b: Block)
    requires tag == RECORD_TAG || tag == HEADER_TAG
    requires 0 < n <= |TaggedLine(r, tag, payload)|
    requires !GlueCollision(r, payload, RecordLine(r, b))
    ensures DecodeLine(a, r, TaggedLine(r, tag, payload)[..n] + RecordLine(r, b)) == None
  {
    hide Checksum, DigestToHex, EncodeBlock, TaggedPayload, DecodeMessage, SplitN;
    TagsAreClean();
    var next, hex := RecordLine(r, b), DigestToHex(Checksum(r, payload));
    var more := DigestToHex(Checksum(r, EncodeBlock(b))) + ['|'] + EncodeBlock(b);
    assert next == RECORD_TAG + ['|'] + more;
    var glued := TaggedLine(r, tag, payload)[..n] + next;
    GluedShapes(r, tag, payload, n, next);
    DigestField(Checksum(r, payload), '|');
    if n <= 6 {
      var start := tag[..n] + RECORD_TAG;
      assert glued == start + ['|'] + more;
      assert start[0] == 'C';
      WrongTagFails(a, r, start, more);
    } else if n <= 7 + |hex| {
      var digits := hex[..n - 7];
      assert glued == tag + ['|'] + (digits + RECORD_TAG + ['|'] + more);
      BrokenChecksumFails(r, tag, digits, more);
      GluedTag(a, r, tag, glued);
    } else {
      var i := n - 8 - |hex|;
      GluedPayloadFails(r, tag, payload, i, next);
      GluedTag(a, r, tag, glued);
    }
  }

  /** A line that starts with its tag and a bar is decoded under that tag. */
  lemma GluedTag(a: AddrCodec, r: Rules, tag: string, line: string)
    requires tag == RECORD_TAG || tag == HEADER_TAG
    requires |line| >= 6 && line[..6] == tag && SplitN(line, '|', 3)[0] == tag
    requires TaggedPayload(r, tag, line) == None
    ensures DecodeLine(a, r, line) == None
  {
    hide TaggedPayload, DecodeMessage, SplitN;
  }

  // ---------------------------------------------------------------- whole files

  /** The lines of a log that has been started: the header and one record per block. */
  function WholeLines(r: Rules, blocks: seq<Block>): (lines: seq<string>)
    ensures |lines| == |blocks| + 1
  {
    [HeaderLine(r, r.config)] + RecordLines(r, blocks)
  }

  /** `file` holds exactly the records of `blocks`, and every line of it is finished. */
  ghost predicate Whole(r: Rules, blocks: seq<Block>, file: string) {
    (blocks == [] && file == []) || file == JoinLines(WholeLines(r, blocks))
  }

  /** The file after appending the blocks in order. */
  function AppendAll(r: Rules, file: string, blocks: seq<Block>): string
    decreases |blocks|
  {
    if blocks == [] then file else AppendAll(r, Append(r, file, blocks[0]), blocks[1..])
  }

  lemma WholeIsClean(r: Rules, blocks: seq<Block>)
    ensures AllClean(WholeLines(r, blocks))
  {
    hide HeaderLine, RecordLine, Clean;
    HeaderIsClean(r, r.config);
    RecordLinesAt(r, blocks);
    forall i | 0 <= i < |blocks|
      ensures Clean(RecordLine(r, blocks[i]))
    {
      RecordIsClean(r, blocks[i]);
    }
  }

  lemma JoinNotEmpty(lines: seq<string>)
    ensures JoinLines(lines) == [] <==> lines == []
  {
  }

  /** Appending to finished lines adds lines. */
  lemma {:induction false} AppendAllLines(r: Rules, lines: seq<string>, blocks: seq<Block>)
    requires lines != []
    ensures AppendAll(r, JoinLines(lines), blocks) == JoinLines(lines + RecordLines(r, blocks))
    decreases |blocks|
  {
    hide RecordLine, HeaderLine, JoinLines;
    if blocks == [] {
      assert lines + RecordLines(r, blocks) == lines;
    } else {
      var record := RecordLine(r, blocks[0]);
      JoinNotEmpty(lines);
      JoinLinesAppend(lines, [record]);
      OneLine(record);
      assert Append(r, JoinLines(lines), blocks[0]) == JoinLines(lines + [record]);
      AppendAllLines(r, lines + [record], blocks[1..]);
      assert lines + [record] + RecordLines(r, blocks[1..]) == lines + RecordLines(r, blocks);
    }
  }

  /** Appending to a whole file keeps it whole. */
  lemma AppendKeepsWhole(r: Rules, blocks: seq<Block>, file: string, added: seq<Block>)
    requires Whole(r, blocks, file)
    ensures Whole(r, blocks + added, AppendAll(r, file, added))
  {
    hide RecordLine, HeaderLine, JoinLines, RecordLines;
    if added == [] {
      assert blocks + added == blocks;
    } else if file == [] {
      JoinNotEmpty(WholeLines(r, blocks));
      assert blocks + added == added;
      StartFile(r, added);
    } else {
      AppendAllLines(r, WholeLines(r, blocks), added);
      RecordLinesConcat(r, blocks, added);
      assert WholeLines(r, blocks) + RecordLines(r, added) == WholeLines(r, blocks + added);
    }
  }

  /** The first append writes the header. */
  lemma StartFile(r: Rules, added: seq<Block>)
    requires added != []
    ensures AppendAll(r, [], added) == JoinLines(WholeLines(r, added))
  {
    hide RecordLine, HeaderLine, JoinLines;
    var h, record := HeaderLine(r, r.config), RecordLine(r, added[0]);
    OneLine(h);
    OneLine(record);
    JoinLinesAppend([h], [record]);
    assert Append(r, [], added[0]) == JoinLines([h] + [record]);
    AppendAllLines(r, [h] + [record], added[1..]);
    assert [h] + [record] + RecordLines(r, added[1..]) == WholeLines(r, added);
  }

  lemma RecordLinesConcat(r: Rules, blocks: seq<Block>, added: seq<Block>)
    ensures RecordLines(r, blocks + added) == RecordLines(r, blocks) + RecordLines(r, added)
  {
    hide RecordLine, RecordLines;
    RecordLinesAt(r, blocks);
    RecordLinesAt(r, added);
    RecordLinesAt(r, blocks + added);
    RecordLinesLength(r, blocks);
    RecordLinesLength(r, added);
    RecordLinesLength(r, blocks + added);
  }

  lemma {:induction false} ReplayRefused(
      a: AddrCodec, r: Rules, blocks: seq<Block>, complete: bool, seenBlock: bool, t: Tree)
    requires AddrCodecSound(a) && !AllAccepted(r, t, blocks)
    ensures var result := Replay(a, r, RecordLines(r, blocks), complete, true, seenBlock, t);
            result.Err? && result.error.StoredBlockInvalid?
    decreases |blocks|
  {
    hide Validate, Insert, DecodeLine, RecordLine, Blank, AddrCodecSound;
    RecordDecodes(a, r, blocks[0]);
    RecordNotBlank(r, blocks[0]);
    if Insert(r, t, blocks[0]).1.Ok? {
      ReplayRefused(a, r, blocks[1..], complete, true, Insert(r, t, blocks[0]).0);
    }
  }

  /** A whole file loads exactly if its blocks are accepted in order, and then to their tree. */
  lemma WholeLoadsExactly(a: AddrCodec, r: Rules, blocks: seq<Block>, file: string)
    requires AddrCodecSound(a) && Whole(r, blocks, file)
    ensures IsComplete(file)
    ensures AllAccepted(r, EMPTY, blocks) ==> Load(a, r, file) == Ok(InsertAll(r, EMPTY, blocks))
    ensures !AllAccepted(r, EMPTY, blocks) ==> Load(a, r, file).Err? && Load(a, r, file).error.StoredBlockInvalid?
  {
    hide Validate, Insert, InsertAll, AllAccepted, DecodeLine, RecordLine, HeaderLine, RecordLines, Blank, Clean,
         AddrCodecSound, Lines, IsComplete, JoinLines;
    if file == [] {
      JoinNotEmpty(WholeLines(r, blocks));
      EmptyLoads(a, r);
      NothingInserted(r);
      NothingToAccept(r);
    } else {
      var lines := WholeLines(r, blocks);
      WholeIsClean(r, blocks);
      LinesOfText(lines, []);
      assert JoinLines(lines) + [] == file && lines + [] == lines;
      HeaderDecodes(a, r, r.config);
      HeaderNotBlank(r, r.config);
      assert lines[1..] == RecordLines(r, blocks) && RecordLines(r, blocks) + [] == RecordLines(r, blocks);
      if AllAccepted(r, EMPTY, blocks) {
        ReplayRecords(a, r, blocks, [], true, false, EMPTY);
      } else {
        ReplayRefused(a, r, blocks, true, false, EMPTY);
      }
    }
  }

  lemma NothingToAccept(r: Rules)
    ensures IsComplete([]) && AllAccepted(r, EMPTY, [])
  {
  }

  // ---------------------------------------------------------------- what a cut leaves

  /** A cut text is some whole lines and a part of the next. */
  lemma {:induction false} CutOfLines(lines: seq<string>, k: nat) returns (m: nat, q: string)
    requires k <= |JoinLines(lines)|
    ensures m <= |lines|
    ensures JoinLines(lines)[..k] == JoinLines(lines[..m]) + q
    ensures q != [] ==> m < |lines| && |q| <= |lines[m]| && q == lines[m][..|q|]
  {
    if lines == [] || k == 0 {
      m, q := 0, [];
      assert lines[..0] == [];
    } else if k <= |lines[0]| {
      m, q := 0, lines[0][..k];
      assert lines[..0] == [];
    } else {
      var rest;
      rest, q := CutOfLines(lines[1..], k - |lines[0]| - 1);
      m := rest + 1;
      assert lines[..m][0] == lines[0] && lines[..m][1..] == lines[1..][..rest];
      assert JoinLines(lines)[..k] == lines[0] + "\n" + JoinLines(lines[1..])[..k - |lines[0]| - 1];
    }
  }

  /** Replaying the first `m` lines of a log and whatever follows. */
  lemma ReplayLogLines(a: AddrCodec, r: Rules, blocks: seq<Block>, m: nat, tail: seq<string>)
    requires AddrCodecSound(a) && AllAccepted(r, EMPTY, blocks)
    requires 0 < m <= |blocks| + 1
    ensures Replay(a, r, WholeLines(r, blocks)[..m] + tail, true, false, false, EMPTY)
            == Replay(a, r, tail, true, true, m > 1, InsertAll(r, EMPTY, blocks[..m - 1]))
  {
    hide Validate, Insert, InsertAll, AllAccepted, DecodeLine, RecordLine, HeaderLine, RecordLines, Blank, AddrCodecSound,
         ChainFingerprint;
    var some := blocks[..m - 1];
    AllAcceptedPrefix(r, EMPTY, blocks, m - 1);
    WholeLinesPrefix(r, blocks, m - 1);
    var all := WholeLines(r, blocks)[..m] + tail;
    assert all[0] == HeaderLine(r, r.config) && all[1..] == RecordLines(r, some) + tail;
    HeaderDecodes(a, r, r.config);
    HeaderNotBlank(r, r.config);
    ReplayRecords(a, r, some, tail, true, false, EMPTY);
  }

  lemma WholeLinesPrefix(r: Rules, blocks: seq<Block>, n: nat)
    requires n <= |blocks|
    ensures WholeLines(r, blocks)[..n + 1] == WholeLines(r, blocks[..n])
  {
    hide RecordLine, HeaderLine, RecordLines;
    RecordLinesAt(r, blocks);
    RecordLinesAt(r, blocks[..n]);
    RecordLinesLength(r, blocks);
    RecordLinesLength(r, blocks[..n]);
    assert RecordLines(r, blocks)[..n] == RecordLines(r, blocks[..n]);
  }

  lemma GluedIsClean(q: string, line: string, n: nat, next: string)
    requires Clean(line) && Clean(next) && 0 < n <= |line| && q == line[..n]
    ensures Clean(q + next) && !Blank(q + next)
  {
    assert (q + next)[0] == line[0];
  }

  /** The line at position `m` of a log: its tag, its payload, and that gluing changes the checksum. */
  lemma LogLineAt(r: Rules, blocks: seq<Block>, b: Block, m: nat) returns (tag: string, payload: string)
    requires m <= |blocks| && ChecksumsTellGlue(r, blocks, b)
    ensures tag == RECORD_TAG || tag == HEADER_TAG
    ensures WholeLines(r, blocks)[m] == TaggedLine(r, tag, payload)
    ensures !GlueCollision(r, payload, RecordLine(r, b))
  {
    hide GlueCollision, TaggedLine, RecordLines, EncodeBlock, ChainFingerprint;
    RecordLinesAt(r, blocks);
    RecordLinesLength(r, blocks);
    if m == 0 {
      tag, payload := HEADER_TAG, ChainFingerprint(r.config);
    } else {
      tag, payload := RECORD_TAG, EncodeBlock(blocks[m - 1]);
    }
  }

  // ---------------------------------------------------------------- the result

  /** `q` is a part of line `m` of the log, or the whole line without its newline. */
  ghost predicate PartOfLine(r: Rules, blocks: seq<Block>, m: nat, q: string) {
    m <= |blocks| && q != [] && |q| <= |WholeLines(r, blocks)[m]| && q == WholeLines(r, blocks)[m][..|q|]
  }

  /** Whole lines of a log, a glued line behind them and whatever was appended later: the file is refused. */
  lemma GluedLogRefused(a: AddrCodec, r: Rules, blocks: seq<Block>, m: nat, q: string, b: Block, more: seq<Block>)
    requires AddrCodecSound(a) && AllAccepted(r, EMPTY, blocks) && ChecksumsTellGlue(r, blocks, b)
    requires PartOfLine(r, blocks, m, q)
    ensures Load(a, r, JoinLines(WholeLines(r, blocks)[..m] + [q + RecordLine(r, b)] + RecordLines(r, more)))
            == Err(InvalidLine)
  {
    hide Validate, Insert, InsertAll, AllAccepted, DecodeLine, RecordLine, HeaderLine, RecordLines, WholeLines, Blank,
         Clean, AddrCodecSound, TaggedLine, ChecksumsTellGlue, GlueCollision, Lines, IsComplete;
    var glued := q + RecordLine(r, b);
    var tail := [glued] + RecordLines(r, more);
    var all := WholeLines(r, blocks)[..m] + tail;
    assert all == WholeLines(r, blocks)[..m] + [glued] + RecordLines(r, more);
    WholeIsClean(r, blocks);
    RecordIsClean(r, b);
    RecordsAreClean(r, more);
    GluedIsClean(q, WholeLines(r, blocks)[m], |q|, RecordLine(r, b));
    LinesOfText(all, []);
    assert JoinLines(all) + [] == JoinLines(all) && all + [] == all;
    var tag, payload := LogLineAt(r, blocks, b, m);
    GluedLineFails(a, r, tag, payload, |q|, b);
    if m > 0 {
      ReplayLogLines(a, r, blocks, m, tail);
    } else {
      assert all == tail;
    }
  }

  lemma RecordsAreClean(r: Rules, blocks: seq<Block>)
    ensures AllClean(RecordLines(r, blocks))
  {
    hide Clean, RecordLines;
    WholeIsClean(r, blocks);
    assert forall i :: 0 <= i < |RecordLines(r, blocks)| ==> RecordLines(r, blocks)[i] == WholeLines(r, blocks)[i + 1];
  }

  /** A cut file: some finished lines, and a part of the next line if the file does not end in a newline. */
  lemma CutWhole(r: Rules, blocks: seq<Block>, file: string, k: nat) returns (m: nat, q: string)
    requires Whole(r, blocks, file) && k <= |file|
    ensures m <= |blocks| + 1
    ensures file[..k] == JoinLines(WholeLines(r, blocks)[..m]) + q
    ensures IsComplete(file[..k]) <==> q == []
    ensures q != [] ==> PartOfLine(r, blocks, m, q)
    ensures q == [] ==> Whole(r, blocks[..if m == 0 then 0 else m - 1], file[..k])
  {
    hide HeaderLine, RecordLines, WholeLines, Clean, IsComplete, JoinLines;
    WholeIsClean(r, blocks);
    if file == [] {
      m, q := 0, [];
      assert WholeLines(r, blocks)[..0] == [] && JoinLines([]) == [] by { NoLines(r); }
      assert file[..k] == [];
      NothingToAccept(r);
    } else {
      m, q := CutOfLines(WholeLines(r, blocks), k);
      var whole := WholeLines(r, blocks)[..m];
      CutTailClean(WholeLines(r, blocks), m, q);
      LinesOfText(whole, q);
      if q == [] {
        assert JoinLines(whole) + [] == JoinLines(whole);
        if m > 0 {
          WholeLinesPrefix(r, blocks, m - 1);
        } else {
          assert whole == [] && JoinLines([]) == [] by { NoLines(r); }
        }
      }
    }
  }

  lemma CutTailClean(lines: seq<string>, m: nat, q: string)
    requires AllClean(lines) && m <= |lines|
    requires q != [] ==> m < |lines| && |q| <= |lines[m]| && q == lines[m][..|q|]
    ensures AllClean(lines[..m]) && Free(q, '\n')
  {
    if q != [] {
      assert Clean(lines[m]);
      PrefixFree(lines[m], |q|);
    }
  }

  /**
   * Appending to a file that was cut, as many records as you like. If the cut file ends in a newline, or is empty, the
   * file is whole again: the surviving records and the new ones. If it does not, every append reports success but the
   * file cannot be loaded any more: recovery from a torn tail works once, and the next append undoes it. Whether the cut
   * file ends in a newline is exactly what decides.
   */
  lemma AppendAfterCut(
      a: AddrCodec, r: Rules, blocks: seq<Block>, file: string, k: nat, added: seq<Block>) returns (survivors: nat)
    requires AddrCodecSound(a) && AllAccepted(r, EMPTY, blocks) && Whole(r, blocks, file) && k <= |file|
    requires added != [] && ChecksumsTellGlue(r, blocks, added[0])
    ensures survivors <= |blocks|
    ensures var cut := file[..k];
            && (IsComplete(cut) ==>
                  && Whole(r, blocks[..survivors], cut)
                  && Whole(r, blocks[..survivors] + added, AppendAll(r, cut, added)))
            && (!IsComplete(cut) ==> Load(a, r, AppendAll(r, cut, added)) == Err(InvalidLine))
  {
    hide Validate, Insert, InsertAll, AllAccepted, RecordLine, HeaderLine, RecordLines, WholeLines, Clean, AddrCodecSound,
         Load, ChecksumsTellGlue, JoinLines, IsComplete, Whole, PartOfLine;
    var cut := file[..k];
    var m, q := CutWhole(r, blocks, file, k);
    survivors := 0;
    if q == [] {
      survivors := if m == 0 then 0 else m - 1;
      AppendKeepsWhole(r, blocks[..survivors], cut, added);
    } else {
      GlueText(r, WholeLines(r, blocks)[..m], q, added);
      PartIsNotEmpty(r, blocks, m, q);
      GluedLogRefused(a, r, blocks, m, q, added[0], added[1..]);
    }
  }

  lemma PartIsNotEmpty(r: Rules, blocks: seq<Block>, m: nat, q: string)
    requires PartOfLine(r, blocks, m, q)
    ensures m <= |blocks| && q != []
  {
  }

  /** Appending to an unfinished line continues it. */
  lemma GlueText(r: Rules, lines: seq<string>, q: string, added: seq<Block>)
    requires q != [] && added != []
    ensures AppendAll(r, JoinLines(lines) + q, added)
            == JoinLines(lines + [q + RecordLine(r, added[0])] + RecordLines(r, added[1..]))
  {
    hide RecordLine, HeaderLine, JoinLines, RecordLines;
    var glued := q + RecordLine(r, added[0]);
    OneLine(glued);
    JoinLinesAppend(lines, [glued]);
    assert Append(r, JoinLines(lines) + q, added[0]) == JoinLines(lines + [glued]);
    AppendAllLines(r, lines + [glued], added[1..]);
  }
}

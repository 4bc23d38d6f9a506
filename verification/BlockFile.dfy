/** The append-only block file: frames of an 8-byte size and a block dump, and where a block and each of its
    transactions lie in it. */
module BlockFile {
  import opened Wrappers
  import opened Lz4Format
  import opened Integers

  const SIZE_LENGTH: nat := 8
  const BLOCK_HEADER_SIZE: nat := 88
  const UINT64_LIMIT: nat := 0x1_0000_0000_0000_0000

  // ----- Integers -----

  lemma SizesReadBack(n: nat)
    requires n < UINT64_LIMIT
    ensures ReadLE(LittleEndian(n, SIZE_LENGTH)) == n
  {
    EightBytes();
    ReadsBack(n, SIZE_LENGTH);
  }

  /** readVarInt: the value and how many bytes it took. */
  function ReadVarInt(s: Bytes, cur: nat): Outcome<(nat, nat)> {
    if cur >= |s| then Thrown
    else if s[cur] <= 249 then Done((s[cur], cur + 1))
    else if s[cur] == 250 then ReadInt(s, cur + 1, 2)
    else if s[cur] == 251 then ReadInt(s, cur + 1, 4)
    else if s[cur] == 252 then ReadInt(s, cur + 1, 8)
    else Thrown
  }

  function ReadInt(s: Bytes, cur: nat, k: nat): Outcome<(nat, nat)> {
    if cur + k <= |s| then Done((ReadLE(s[cur..cur + k]), cur + k)) else Thrown
  }

  // ----- Transactions of a dump -----

  /** Parsing the body of a transaction: how many of its bytes were consumed, or an exception. */
  type TxParser = Bytes -> Option<nat>

  /** The next transaction frame: its size, 0 at the end of the block, and where reading goes on. */
  function ReadTransaction(dump: Bytes, cur: nat, parse: TxParser): (r: Outcome<(nat, nat)>)
    ensures r.Done? && r.value.0 > 0 ==> cur < r.value.1 <= |dump|
  {
    match ReadVarInt(dump, cur)
    case Thrown => Thrown
    case Done((size, body)) =>
      if size == 0 then Done((0, body))
      else if body + size > |dump| then Thrown
      else match parse(dump[body..body + size])
        case None => Thrown
        case Some(consumed) =>
          if consumed <= size then Done((size, body + consumed)) else Thrown
  }

  /** Where each transaction of the dump starts, from `cur` on. */
  function TxOffsets(dump: Bytes, cur: nat, parse: TxParser): Outcome<seq<nat>>
    decreases |dump| - cur
  {
    match ReadTransaction(dump, cur, parse)
    case Thrown => Thrown
    case Done((size, next)) =>
      if size == 0 then Done([])
      else match TxOffsets(dump, next, parse)
        case Thrown => Thrown
        case Done(more) => Done([cur] + more)
  }

  /** A dump that readNextBlockInfo accepts: a header and transactions up to an empty one. */
  predicate WellFormed(dump: Bytes, parse: TxParser) {
    && BLOCK_HEADER_SIZE - SIZE_LENGTH <= |dump| < UINT64_LIMIT - SIZE_LENGTH
    && TxOffsets(dump, BLOCK_HEADER_SIZE - SIZE_LENGTH, parse).Done?
  }

  // ----- Reading -----

  datatype FileBlock = FileBlock(dump: Bytes, pos: nat, endBlockPos: nat, txPos: seq<nat>)

  function Shifted(offsets: seq<nat>, base: nat): (r: seq<nat>)
    ensures |r| == |offsets| && forall i: nat :: i < |r| ==> r[i] == offsets[i] + base
  {
    seq(|offsets|, i requires 0 <= i < |offsets| => offsets[i] + base)
  }

  /** readBlockTxs: the positions of the transactions in a file that has the block at posInFile. */
  method ReadBlockTxs(dump: Bytes, posInFile: nat, parse: TxParser) returns (r: Outcome<seq<nat>>)
    ensures r == (match TxOffsets(dump, BLOCK_HEADER_SIZE - SIZE_LENGTH, parse)
                  case Thrown => Thrown
                  case Done(offsets) => Done(Shifted(offsets, posInFile + SIZE_LENGTH)))
  {
    var curPos := BLOCK_HEADER_SIZE - SIZE_LENGTH;
    ghost var offsets: seq<nat> := [];
    var txs: seq<nat> := [];
    PrefixedNone(TxOffsets(dump, curPos, parse));
    while true
      invariant txs == Shifted(offsets, posInFile + SIZE_LENGTH)
      invariant TxOffsets(dump, BLOCK_HEADER_SIZE - SIZE_LENGTH, parse)
             == Prefixed(offsets, TxOffsets(dump, curPos, parse))
      decreases |dump| - curPos
    {
      var tx := ReadTransaction(dump, curPos, parse);
      if tx.Thrown? { return Thrown; }
      var (size, next) := tx.value;
      if size == 0 {
        assert offsets + [] == offsets;
        return Done(txs);
      }
      OffsetsStep(dump, curPos, parse, offsets, next);
      txs := txs + [curPos + posInFile + SIZE_LENGTH];
      offsets := offsets + [curPos];
      curPos := next;
    }
  }

  function Prefixed(offsets: seq<nat>, r: Outcome<seq<nat>>): Outcome<seq<nat>> {
    match r
    case Thrown => Thrown
    case Done(more) => Done(offsets + more)
  }

  lemma PrefixedNone(r: Outcome<seq<nat>>)
    ensures Prefixed([], r) == r
  {
    if r.Done? { assert [] + r.value == r.value; }
  }

  lemma OffsetsStep(dump: Bytes, cur: nat, parse: TxParser, offsets: seq<nat>, next: nat)
    requires ReadTransaction(dump, cur, parse).Done? && ReadTransaction(dump, cur, parse).value.0 > 0
    requires next == ReadTransaction(dump, cur, parse).value.1
    ensures Prefixed(offsets, TxOffsets(dump, cur, parse)) == Prefixed(offsets + [cur], TxOffsets(dump, next, parse))
  {
    if TxOffsets(dump, next, parse).Done? {
      var more := TxOffsets(dump, next, parse).value;
      assert offsets + ([cur] + more) == (offsets + [cur]) + more;
    }
  }

  /** readNextBlockInfo on a file: the block at a position and the position behind it, or the same position
      when no complete frame is there. The sum of size and prefix wraps around like the 64-bit sum it is. */
  method ReadNextBlockInfo(file: Bytes, currPos: nat, parse: TxParser)
    returns (next: nat, r: Outcome<Option<FileBlock>>)
    requires |file| < UINT64_LIMIT
    ensures (next, r) == NextBlock(file, currPos, parse)
  {
    if |file| <= currPos || |file| - currPos < BLOCK_HEADER_SIZE { return currPos, Done(None); }
    var blockSize := ReadLE(file[currPos..currPos + SIZE_LENGTH]);
    if |file| - currPos < FrameSize(blockSize) { return currPos, Done(None); }
    if blockSize > |file| - currPos - SIZE_LENGTH { return currPos, Thrown; }
    var dump := file[currPos + SIZE_LENGTH..currPos + SIZE_LENGTH + blockSize];
    var txs := ReadBlockTxs(dump, currPos, parse);
    if txs.Thrown? { return currPos, Thrown; }
    next := currPos + blockSize + SIZE_LENGTH;
    r := Done(Some(FileBlock(dump, currPos, next, txs.value)));
  }

  function NextBlock(file: Bytes, currPos: nat, parse: TxParser): (nat, Outcome<Option<FileBlock>>) {
    if |file| <= currPos || |file| - currPos < BLOCK_HEADER_SIZE then (currPos, Done(None))
    else
      var blockSize := ReadLE(file[currPos..currPos + SIZE_LENGTH]);
      if |file| - currPos < FrameSize(blockSize) then (currPos, Done(None))
      else if blockSize > |file| - currPos - SIZE_LENGTH then (currPos, Thrown)
      else
        BlockAt(file[currPos + SIZE_LENGTH..currPos + SIZE_LENGTH + blockSize], currPos, parse)
  }

  /** A dump with its place in the file, or the exception its transactions raise. */
  function BlockAt(dump: Bytes, pos: nat, parse: TxParser): (nat, Outcome<Option<FileBlock>>) {
    match TxOffsets(dump, BLOCK_HEADER_SIZE - SIZE_LENGTH, parse)
    case Thrown => (pos, Thrown)
    case Done(offsets) =>
      var next := pos + |dump| + SIZE_LENGTH;
      (next, Done(Some(FileBlock(dump, pos, next, Shifted(offsets, pos + SIZE_LENGTH)))))
  }

  /** Size and prefix together, added in 64 bits. */
  function FrameSize(blockSize: nat): nat {
    (blockSize + SIZE_LENGTH) % UINT64_LIMIT
  }

  // ----- Appending -----

  function Frame(dump: Bytes): (r: Bytes)
    ensures |r| == SIZE_LENGTH + |dump|
  {
    LittleEndian(|dump|, SIZE_LENGTH) + dump
  }

  class File {
    var content: Bytes

    constructor ()
      ensures content == []
    {
      content := [];
    }

    /** saveBlockToFileBinary; the position of the frame is the size of the file before. */
    method SaveBlockToFileBinary(data: Bytes) returns (oldSize: nat)
      modifies this
      ensures content == old(content) + Frame(data) && oldSize == old(|content|)
      ensures content[oldSize + SIZE_LENGTH..oldSize + SIZE_LENGTH + |data|] == data
    {
      oldSize := |content|;
      content := content + LittleEndian(|data|, SIZE_LENGTH);
      content := content + data;
    }

    /** saveTransactions for a block parsed from its dump alone, with every position counted from 0: the
        positions end up where reading the block back from the file finds its transactions. */
    method SaveTransactions(dump: Bytes, parse: TxParser) returns (pos: nat, txPos: seq<nat>)
      requires WellFormed(dump, parse)
      requires |content| + SIZE_LENGTH + |dump| < UINT64_LIMIT
      modifies this
      ensures content == old(content) + Frame(dump) && pos == old(|content|)
      ensures NextBlock(content, pos, parse) == (|content|, Done(Some(FileBlock(dump, pos, |content|, txPos))))
    {
      hide Frame, TxOffsets, NextBlock;
      var parsed := ReadBlockTxs(dump, 0, parse);
      pos := SaveBlockToFileBinary(dump);
      txPos := Shifted(parsed.value, pos);
      ghost var offsets := TxOffsets(dump, BLOCK_HEADER_SIZE - SIZE_LENGTH, parse).value;
      assert txPos == Shifted(offsets, pos + SIZE_LENGTH);
      FrameAtTheEnd(old(content), dump);
      CompleteFrame(content, pos, dump, parse);
    }
  }

  /** The position a node reads a growing file from. */
  class FileBlockSource {
    var currPos: nat

    constructor (currPos: nat)
      ensures this.currPos == currPos
    {
      this.currPos := currPos;
    }

    /** Reads the next block, if it is complete by now, and moves behind it; otherwise, and when the block
        cannot be parsed, the position stays. */
    method Process(file: Bytes, parse: TxParser) returns (r: Outcome<Option<FileBlock>>)
      requires |file| < UINT64_LIMIT
      modifies this
      ensures (currPos, r) == NextBlock(file, old(currPos), parse)
      ensures r.Done? && r.value.Some? <==> currPos != old(currPos)
      ensures r.Done? && r.value.Some? ==> currPos == r.value.value.endBlockPos <= |file|
    {
      var nextCurrPos, block := ReadNextBlockInfo(file, currPos, parse);
      if block.Thrown? { return Thrown; }
      if currPos == nextCurrPos { return Done(None); }
      currPos := nextCurrPos;
      return block;
    }
  }

  /** A complete frame is read as the block it holds, whatever follows it. */
  lemma CompleteFrame(file: Bytes, pos: nat, dump: Bytes, parse: TxParser)
    requires WellFormed(dump, parse) && pos + SIZE_LENGTH + |dump| <= |file| < UINT64_LIMIT
    requires file[pos..pos + SIZE_LENGTH + |dump|] == Frame(dump)
    ensures var end := pos + SIZE_LENGTH + |dump|;
      var offsets := TxOffsets(dump, BLOCK_HEADER_SIZE - SIZE_LENGTH, parse).value;
      NextBlock(file, pos, parse) == (end, Done(Some(FileBlock(dump, pos, end, Shifted(offsets, pos + SIZE_LENGTH)))))
  {
    hide TxOffsets, ReadLE, LittleEndian, Shifted, FrameSize, Frame, NextBlock, BlockAt;
    FrameParts(file, pos, dump);
    FrameSizeFits(|dump|);
    WholeFrame(file, pos, |dump|, parse);
    BlockIs(dump, pos, parse);
  }

  lemma BlockIs(dump: Bytes, pos: nat, parse: TxParser)
    requires TxOffsets(dump, BLOCK_HEADER_SIZE - SIZE_LENGTH, parse).Done?
    ensures var end := pos + SIZE_LENGTH + |dump|;
      var offsets := TxOffsets(dump, BLOCK_HEADER_SIZE - SIZE_LENGTH, parse).value;
      BlockAt(dump, pos, parse) == (end, Done(Some(FileBlock(dump, pos, end, Shifted(offsets, pos + SIZE_LENGTH)))))
  {
    hide TxOffsets, Shifted;
  }

  lemma WholeFrame(file: Bytes, pos: nat, size: nat, parse: TxParser)
    requires BLOCK_HEADER_SIZE - SIZE_LENGTH <= size && pos + SIZE_LENGTH + size <= |file|
    requires ReadLE(file[pos..pos + SIZE_LENGTH]) == size && FrameSize(size) == size + SIZE_LENGTH
    ensures NextBlock(file, pos, parse) == BlockAt(file[pos + SIZE_LENGTH..pos + SIZE_LENGTH + size], pos, parse)
  {
    hide TxOffsets, ReadLE, FrameSize, BlockAt;
  }

  lemma FrameAtTheEnd(before: Bytes, dump: Bytes)
    ensures (before + Frame(dump))[|before|..|before| + SIZE_LENGTH + |dump|] == Frame(dump)
  {
    hide Frame;
  }

  lemma FrameSizeFits(n: nat)
    requires n < UINT64_LIMIT - SIZE_LENGTH
    ensures FrameSize(n) == n + SIZE_LENGTH
  {}

  lemma FrameParts(file: Bytes, pos: nat, dump: Bytes)
    requires |dump| < UINT64_LIMIT && pos + SIZE_LENGTH + |dump| <= |file|
    requires file[pos..pos + SIZE_LENGTH + |dump|] == Frame(dump)
    ensures ReadLE(file[pos..pos + SIZE_LENGTH]) == |dump|
    ensures file[pos + SIZE_LENGTH..pos + SIZE_LENGTH + |dump|] == dump
  {
    hide ReadLE, LittleEndian;
    var frame := Frame(dump);
    assert frame[..SIZE_LENGTH] == LittleEndian(|dump|, SIZE_LENGTH);
    assert file[pos..pos + SIZE_LENGTH] == frame[..SIZE_LENGTH];
    assert file[pos + SIZE_LENGTH..pos + SIZE_LENGTH + |dump|] == frame[SIZE_LENGTH..];
    SizesReadBack(|dump|);
  }

  /** A frame cut off anywhere is not read, and the position stays. */
  lemma IncompleteFrame(file: Bytes, pos: nat, dump: Bytes, parse: TxParser)
    requires WellFormed(dump, parse) && pos <= |file| < pos + SIZE_LENGTH + |dump|
    requires file[pos..] <= Frame(dump)
    ensures NextBlock(file, pos, parse) == (pos, Done(None))
  {
    if |file| - pos >= BLOCK_HEADER_SIZE {
      assert file[pos..pos + SIZE_LENGTH] == file[pos..][..SIZE_LENGTH] == Frame(dump)[..SIZE_LENGTH];
      SizesReadBack(|dump|);
    }
  }

  // ----- Reading everything -----

  function Concat(dumps: seq<Bytes>): Bytes {
    if dumps == [] then [] else Frame(dumps[0]) + Concat(dumps[1..])
  }

  /** How many of the frames lie completely within the first `length` bytes. */
  function Complete(dumps: seq<Bytes>, length: nat): (n: nat)
    ensures n <= |dumps|
  {
    if dumps == [] || length < |Frame(dumps[0])| then 0
    else 1 + Complete(dumps[1..], length - |Frame(dumps[0])|)
  }

  /** Everything read from a position until it does not advance. */
  function ReadAll(file: Bytes, pos: nat, parse: TxParser): (seq<Bytes>, nat)
    requires |file| < UINT64_LIMIT
    decreases |file| - pos
  {
    var (next, r) := NextBlock(file, pos, parse);
    if next <= pos then ([], pos)
    else
      var (more, end) := ReadAll(file, next, parse);
      ([r.value.value.dump] + more, end)
  }

  /** After any truncation, reading recovers exactly the complete dumps in order and stops in front of the
      first incomplete one. `before` is what lies in front of the frames: reading may start behind blocks read
      earlier. */
  lemma {:induction false} ReadingRecoversCompleteDumps(before: Bytes, dumps: seq<Bytes>, length: nat, parse: TxParser)
    requires forall d :: d in dumps ==> WellFormed(d, parse)
    requires length <= |Concat(dumps)| && |before| + length < UINT64_LIMIT
    ensures var n := Complete(dumps, length);
      ReadAll(before + Concat(dumps)[..length], |before|, parse) == (dumps[..n], |before| + |Concat(dumps[..n])|)
    decreases |dumps|
  {
    hide WellFormed, NextBlock, Frame;
    var file := before + Concat(dumps)[..length];
    if dumps == [] {
      NothingThere(file, |before|, parse);
    } else {
      var d, frame, rest := dumps[0], Frame(dumps[0]), Concat(dumps[1..]);
      assert file[|before|..] == (frame + rest)[..length];
      if length < |frame| {
        assert (frame + rest)[..length] == frame[..length];
        IncompleteFrame(file, |before|, d, parse);
      } else {
        NextFrame(before, frame, rest, length);
        CompleteFrame(file, |before|, d, parse);
        ReadingRecoversCompleteDumps(before + frame, dumps[1..], length - |frame|, parse);
        FirstAndMore(dumps, Complete(dumps, length));
      }
    }
  }

  lemma NothingThere(file: Bytes, pos: nat, parse: TxParser)
    requires |file| <= pos
    ensures NextBlock(file, pos, parse) == (pos, Done(None))
  {}

  lemma NextFrame(before: Bytes, frame: Bytes, rest: Bytes, length: nat)
    requires |frame| <= length <= |frame| + |rest|
    ensures var file := before + (frame + rest)[..length];
      && file[|before|..|before| + |frame|] == frame
      && file == (before + frame) + rest[..length - |frame|]
  {}

  lemma FirstAndMore(dumps: seq<Bytes>, n: nat)
    requires 0 < n <= |dumps|
    ensures dumps[..n] == [dumps[0]] + dumps[1..][..n - 1]
    ensures Concat(dumps[..n]) == Frame(dumps[0]) + Concat(dumps[1..][..n - 1])
  {
    assert dumps[..n][1..] == dumps[1..][..n - 1];
  }

  lemma {:induction false} CompleteGrows(dumps: seq<Bytes>, l: nat, m: nat)
    requires l <= m
    ensures Complete(dumps, l) <= Complete(dumps, m)
    ensures |Concat(dumps[..Complete(dumps, l)])| <= l
    ensures Complete(dumps[Complete(dumps, l)..], m - |Concat(dumps[..Complete(dumps, l)])|)
         == Complete(dumps, m) - Complete(dumps, l)
  {
    hide Frame;
    if dumps != [] && l >= |Frame(dumps[0])| {
      var len := |Frame(dumps[0])|;
      CompleteGrows(dumps[1..], l - len, m - len);
      FirstAndMore(dumps, Complete(dumps, l));
      assert dumps[Complete(dumps, l)..] == dumps[1..][Complete(dumps, l) - 1..];
    } else {
      assert dumps[0..] == dumps && dumps[..0] == [];
    }
  }

  lemma {:induction false} ConcatSplits(dumps: seq<Bytes>, n: nat)
    requires n <= |dumps|
    ensures Concat(dumps) == Concat(dumps[..n]) + Concat(dumps[n..])
  {
    hide Frame;
    if n == 0 {
      assert dumps[0..] == dumps && dumps[..0] == [];
    } else {
      ConcatSplits(dumps[1..], n - 1);
      FirstAndMore(dumps, n);
      assert dumps[n..] == dumps[1..][n - 1..];
    }
  }

  /** A file that is read while it grows: stopping at what is there and going on from the same position later
      gives every block exactly once, as if all had been there at first. */
  lemma ResumedReadingMissesNothing(dumps: seq<Bytes>, l: nat, m: nat, parse: TxParser)
    requires forall d :: d in dumps ==> WellFormed(d, parse)
    requires l <= m <= |Concat(dumps)| < UINT64_LIMIT
    ensures var (early, pos) := ReadAll(Concat(dumps)[..l], 0, parse);
      var (late, end) := ReadAll(Concat(dumps)[..m], pos, parse);
      (early + late, end) == ReadAll(Concat(dumps)[..m], 0, parse)
  {
    hide WellFormed, ReadAll, Concat, Complete;
    var a, b := Complete(dumps, l), Complete(dumps, m);
    ReadingRecoversCompleteDumps([], dumps, l, parse);
    ReadingRecoversCompleteDumps([], dumps, m, parse);
    assert [] + Concat(dumps)[..l] == Concat(dumps)[..l] && [] + Concat(dumps)[..m] == Concat(dumps)[..m];
    CompleteGrows(dumps, l, m);
    ConcatSplits(dumps, a);
    var before, rest := Concat(dumps[..a]), Concat(dumps[a..]);
    ReadingRecoversCompleteDumps(before, dumps[a..], m - |before|, parse);
    assert Concat(dumps)[..m] == before + rest[..m - |before|];
    assert dumps[..b] == dumps[..a] + dumps[a..][..b - a];
    assert dumps[..b][..a] == dumps[..a] && dumps[..b][a..] == dumps[a..][..b - a];
    ConcatSplits(dumps[..b], a);
  }

  // ----- One transaction by its position -----

  /** What a read of n bytes leaves in a buffer of zeros. */
  function Window(file: Bytes, pos: nat, n: nat): (r: Bytes)
    requires pos <= |file|
    ensures |r| == n && forall i: nat :: i < n ==> r[i] == if pos + i < |file| then file[pos + i] else 0
  {
    seq(n, i requires 0 <= i => if pos + i < |file| then file[pos + i] else 0)
  }

  /** The body of the transaction at a position; None when the file does not reach that far. */
  method ReadOneTransactionInfo(file: Bytes, currPos: nat, parse: TxParser) returns (r: Outcome<Option<Bytes>>)
    ensures r == OneTransaction(file, currPos, parse)
  {
    if |file| <= currPos || |file| - currPos < SIZE_LENGTH { return Done(None); }
    var size := ReadVarInt(Window(file, currPos, SIZE_LENGTH + 1), 0);
    if size.Thrown? { return Thrown; }
    var buffer := Window(file, currPos, size.value.0 + 2 * SIZE_LENGTH);
    var tx := ReadTransaction(buffer, 0, parse);
    if tx.Thrown? { return Thrown; }
    var body := size.value.1;
    return Done(Some(buffer[body..body + size.value.0]));
  }

  function OneTransaction(file: Bytes, currPos: nat, parse: TxParser): Outcome<Option<Bytes>> {
    if |file| <= currPos || |file| - currPos < SIZE_LENGTH then Done(None)
    else match ReadVarInt(Window(file, currPos, SIZE_LENGTH + 1), 0)
      case Thrown => Thrown
      case Done((size, body)) =>
        var buffer := Window(file, currPos, size + 2 * SIZE_LENGTH);
        if ReadTransaction(buffer, 0, parse).Thrown? then Thrown else Done(Some(buffer[body..body + size]))
  }

  lemma VarIntLength(s: Bytes, cur: nat)
    requires ReadVarInt(s, cur).Done?
    ensures cur < ReadVarInt(s, cur).value.1 <= cur + SIZE_LENGTH + 1
    ensures ReadVarInt(s, cur).value.1 <= |s|
  {}

  /** A varint reads the same wherever its bytes lie. */
  lemma VarIntMoves(s: Bytes, cur: nat, t: Bytes, at: nat)
    requires ReadVarInt(s, cur).Done?
    requires var end := ReadVarInt(s, cur).value.1;
      end <= |s| && cur <= end && at + (end - cur) <= |t| && t[at..at + (end - cur)] == s[cur..end]
    ensures ReadVarInt(t, at) == Done((ReadVarInt(s, cur).value.0, at + (ReadVarInt(s, cur).value.1 - cur)))
  {
    var (v, end) := ReadVarInt(s, cur).value;
    assert t[at] == t[at..at + (end - cur)][0] == s[cur..end][0] == s[cur];
    if s[cur] > 249 {
      assert t[at + 1..at + (end - cur)] == t[at..at + (end - cur)][1..] == s[cur..end][1..] == s[cur + 1..end];
    }
  }

  /** The offsets are those of transactions that can be read. */
  lemma {:induction false} OffsetsAreReadable(dump: Bytes, cur: nat, parse: TxParser, i: nat)
    requires TxOffsets(dump, cur, parse).Done? && i < |TxOffsets(dump, cur, parse).value|
    ensures var o := TxOffsets(dump, cur, parse).value[i];
      ReadTransaction(dump, o, parse).Done? && ReadTransaction(dump, o, parse).value.0 > 0
    decreases |dump| - cur
  {
    if i > 0 { OffsetsAreReadable(dump, ReadTransaction(dump, cur, parse).value.1, parse, i - 1); }
  }

  /** The bytes of the transaction frame at an offset of a dump: its size field, then its body. */
  function BodyAt(dump: Bytes, o: nat, parse: TxParser): (r: Bytes)
    requires ReadTransaction(dump, o, parse).Done? && ReadTransaction(dump, o, parse).value.0 > 0
  {
    var (size, body) := ReadVarInt(dump, o).value;
    dump[body..body + size]
  }

  /** The position of a transaction addresses, in the file, the very bytes it has in its block: reading that
      one transaction by its position yields its body. (No transaction is shorter than the address it starts
      with, so the file always reaches far enough.) */
  lemma PositionAddressesTransaction(file: Bytes, start: nat, dump: Bytes, parse: TxParser, o: nat)
    requires start + |dump| <= |file| && file[start..start + |dump|] == dump
    requires ReadTransaction(dump, o, parse).Done? && ReadTransaction(dump, o, parse).value.0 >= SIZE_LENGTH - 1
    ensures OneTransaction(file, start + o, parse) == Done(Some(BodyAt(dump, o, parse)))
  {
    hide ReadVarInt;
    var (size, body) := ReadVarInt(dump, o).value;
    VarIntLength(dump, o);
    WindowOfDump(file, start, dump, o, body, SIZE_LENGTH + 1);
    VarIntMoves(dump, o, Window(file, start + o, SIZE_LENGTH + 1), 0);
    WindowOfDump(file, start, dump, o, body + size, size + 2 * SIZE_LENGTH);
    var buffer := Window(file, start + o, size + 2 * SIZE_LENGTH);
    assert buffer[0..body - o] == buffer[0..body + size - o][0..body - o] == dump[o..body];
    VarIntMoves(dump, o, buffer, 0);
    assert buffer[body - o..body - o + size] == buffer[0..body + size - o][body - o..] == dump[body..body + size];
  }

  lemma WindowOfDump(file: Bytes, start: nat, dump: Bytes, o: nat, end: nat, n: nat)
    requires start + |dump| <= |file| && file[start..start + |dump|] == dump
    requires o <= end <= |dump| && end - o <= n
    ensures Window(file, start + o, n)[0..end - o] == dump[o..end]
  {
    var window := Window(file, start + o, n);
    forall i: nat | i < end - o ensures window[i] == dump[o + i] {
      assert file[start..start + |dump|][o + i] == dump[o + i];
    }
  }

  /** Whatever block is read from a file, each of its transaction positions addresses its own transaction. */
  lemma EveryTransactionIsAddressed(file: Bytes, pos: nat, parse: TxParser, b: FileBlock, i: nat)
    requires NextBlock(file, pos, parse).1 == Done(Some(b)) && i < |b.txPos|
    ensures b.pos + SIZE_LENGTH <= b.txPos[i]
    ensures var o := b.txPos[i] - b.pos - SIZE_LENGTH;
      var tx := ReadTransaction(b.dump, o, parse);
      tx.Done? && tx.value.0 > 0
      && (tx.value.0 >= SIZE_LENGTH - 1 ==>
           OneTransaction(file, b.txPos[i], parse) == Done(Some(BodyAt(b.dump, o, parse))))
  {
    hide TxOffsets, ReadTransaction, OneTransaction, BodyAt, FrameSize, ReadLE;
    var offsets := TxOffsets(b.dump, BLOCK_HEADER_SIZE - SIZE_LENGTH, parse).value;
    assert b.txPos == Shifted(offsets, pos + SIZE_LENGTH) && b.pos == pos;
    OffsetsAreReadable(b.dump, BLOCK_HEADER_SIZE - SIZE_LENGTH, parse, i);
    if ReadTransaction(b.dump, offsets[i], parse).value.0 >= SIZE_LENGTH - 1 {
      PositionAddressesTransaction(file, pos + SIZE_LENGTH, b.dump, parse, offsets[i]);
    }
  }
}

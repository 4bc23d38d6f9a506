/** The resumable frame decoder: stages that remember how far they are, so that input and output may be cut
    anywhere between calls. */
module Lz4FrameDecoder {
  import opened Wrappers
  import opened Integers
  import opened Lz4Format
  import opened Lz4Frame
  import opened Lz4FrameFormat

  datatype Stage =
    | GetHeader | StoreHeader | Init
    | GetCBlockSize | StoreCBlockSize
    | CopyDirect
    | GetCBlock | StoreCBlock | DecodeCBlock | IntoDst | IntoTmp | FlushOut
    | GetSuffix | StoreSuffix

  /** What a stage tells the loop: go on with another stage, stop with a hint for the next call, or fail. */
  datatype Next = Go | Wait(hint: nat) | Fail

  /** The fields of the context as a value; buffers hold what was filled in so far. */
  datatype Ctx = Ctx(dStage: Stage, frameInfo: Info, frameRemainingSize: int, xxh: Bytes,
                     header: Bytes, tmpIn: Bytes, tmpInTarget: nat, tmpOut: Bytes, tmpOutStart: nat)

  // ----- What a context stands for -----

  function Sofar(c: Ctx): Progress {
    Progress(c.frameInfo, if c.frameInfo.checksum then c.xxh else [], c.frameRemainingSize)
  }

  ghost predicate Ready(c: Ctx) {
    match c.dStage
    case StoreHeader => |c.header| < c.tmpInTarget && TargetFits(c.header, c.tmpInTarget)
    case StoreCBlockSize => |c.tmpIn| < BLOCK_HEADER
    case CopyDirect => c.tmpInTarget > 0
    case GetCBlock => c.tmpInTarget > 0
    case StoreCBlock => |c.tmpIn| < c.tmpInTarget
    case FlushOut => c.tmpOutStart <= |c.tmpOut|
    case StoreSuffix => |c.tmpIn| < 4 && c.frameRemainingSize == 0 && c.frameInfo.checksum
    case _ => true
  }

  /** A header is stored up to its minimal size first, then up to the size it announces. */
  predicate TargetFits(header: Bytes, target: nat) {
    target == MIN_HEADER || (target == MAX_HEADER && |header| >= 5 && HeaderSize(header[4]) == MAX_HEADER)
  }

  /** The content still to come out when `rest` is exactly what is still to be read. `selected` is the block
      just picked for decoding. */
  ghost function Future(c: Ctx, selected: Bytes, rest: Bytes, digest: Digest): Option<Bytes> {
    var p := Sofar(c);
    match c.dStage
    case GetHeader => ParseFrame(rest, c.frameRemainingSize, digest)
    case StoreHeader => ParseFrame(c.header + rest, c.frameRemainingSize, digest)
    case Init => ParseBlocks(rest, p.(hashed := []), digest)
    case GetCBlockSize => ParseBlocks(rest, p, digest)
    case StoreCBlockSize => ParseBlocks(c.tmpIn + rest, p, digest)
    case CopyDirect => ParseRaw(rest, c.tmpInTarget, p, digest)
    case GetCBlock => ParsePacked(rest, c.tmpInTarget, p, digest)
    case StoreCBlock => ParsePacked(c.tmpIn + rest, c.tmpInTarget, p, digest)
    case DecodeCBlock => ParseDecoded(selected, rest, p, digest)
    case IntoDst => ParseDecoded(selected, rest, p, digest)
    case IntoTmp => ParseDecoded(selected, rest, p, digest)
    case FlushOut =>
      if c.tmpOutStart <= |c.tmpOut| then Prepend(c.tmpOut[c.tmpOutStart..], ParseBlocks(rest, p, digest)) else None
    case GetSuffix => ParseSuffix(rest, p, digest)
    case StoreSuffix => CheckSuffix(c.tmpIn + rest, p, digest)
  }

  /** Stages that may follow one another without reading anything. */
  function Rank(s: Stage): nat {
    match s
    case GetCBlock => 5
    case DecodeCBlock => 4
    case IntoDst => 3
    case IntoTmp => 3
    case FlushOut => 2
    case GetCBlockSize => 1
    case _ => 0
  }

  /** How much input a resting context asks for: what is missing of the field or block it is in, and the size
      field that has to follow a header or a block. */
  function Hint(c: Ctx): int {
    match c.dStage
    case GetHeader => 7
    case StoreHeader => c.tmpInTarget - |c.header| + 4
    case StoreCBlockSize => 4 - |c.tmpIn|
    case CopyDirect => c.tmpInTarget + 4
    case GetCBlock => c.tmpInTarget + 4
    case StoreCBlock => c.tmpInTarget - |c.tmpIn| + 4
    case StoreSuffix => 4 - |c.tmpIn|
    case _ => 4
  }

  lemma FrameIsLong(s: Bytes, leftover: int, digest: Digest)
    requires ParseFrame(s, leftover, digest).Some?
    ensures |s| >= 5 && |s| >= HeaderSize(s[4]) + 4
  {
    hide ReadLE, InfoOf, ParseRaw, ParsePacked, ParseSuffix;
  }

  lemma BlocksAreLong(s: Bytes, p: Progress, digest: Digest)
    ensures ParseBlocks(s, p, digest).Some? ==> |s| >= 4
  {}

  lemma BlockIsLong(s: Bytes, size: nat, p: Progress, digest: Digest)
    ensures ParseRaw(s, size, p, digest).Some? || ParsePacked(s, size, p, digest).Some? ==> |s| >= size + 4
  {
    hide ParseBlocks, ParseDecoded;
    if |s| >= size {
      BlocksAreLong(s[size..], After(p, s[..size]), digest);
      DecodedIsLong(s[..size], s[size..], p, digest);
    }
  }

  lemma DecodedIsLong(data: Bytes, s: Bytes, p: Progress, digest: Digest)
    ensures ParseDecoded(data, s, p, digest).Some? ==> |s| >= 4
  {
    hide ParseBlocks, DecodeBlock;
    var decoded := DecodeBlock(data, p.info.maxBlockSize);
    if decoded.Some? { BlocksAreLong(s, After(p, decoded.value), digest); }
  }

  lemma ChecksumIsLong(s: Bytes, p: Progress, digest: Digest)
    ensures CheckSuffix(s, p, digest).Some? ==> |s| == 4
  {}

  /** It never asks for more than is left of a frame. */
  lemma HintStaysInside(c: Ctx, rest: Bytes, digest: Digest)
    requires Ready(c) && Resting(c.dStage) && Future(c, [], rest, digest).Some?
    ensures 0 < Hint(c) <= |rest|
  {
    hide ParseFrame, ParseBlocks, ParseRaw, ParsePacked, CheckSuffix;
    var p := Sofar(c);
    match c.dStage
    case GetHeader => FrameIsLong(rest, c.frameRemainingSize, digest);
    case StoreHeader =>
      FrameIsLong(c.header + rest, c.frameRemainingSize, digest);
      assert |c.header| >= 5 ==> (c.header + rest)[4] == c.header[4];
    case Init => BlocksAreLong(rest, p.(hashed := []), digest);
    case StoreCBlockSize => BlocksAreLong(c.tmpIn + rest, p, digest);
    case CopyDirect => BlockIsLong(rest, c.tmpInTarget, p, digest);
    case GetCBlock => BlockIsLong(rest, c.tmpInTarget, p, digest);
    case StoreCBlock => BlockIsLong(c.tmpIn + rest, c.tmpInTarget, p, digest);
    case FlushOut => BlocksAreLong(rest, p, digest);
    case StoreSuffix => ChecksumIsLong(c.tmpIn + rest, p, digest);
  }

  /** What one stage, or one call, did: `before` is what the context stood for with `rest` to be read, of which
      `used` bytes were read while `out` was written. A failure means that no content was there; the hint 0,
      that the frame ends here; otherwise what the context stands for now is what was owed less `out`. */
  ghost predicate Moved(before: Option<Bytes>, rest: Bytes, used: nat, out: Bytes, next: Next, c: Ctx,
                        selected: Bytes, digest: Digest) {
    used <= |rest|
    && match next
       case Fail => before.None?
       case Wait(0) =>
         && c.dStage.GetHeader? && c.frameRemainingSize == 0
         && before == if used == |rest| then Some(out) else None
       case _ =>
         && Ready(c) && (next.Wait? ==> Resting(c.dStage) && next.hint == Hint(c))
         && before == Prepend(out, Future(c, selected, rest[used..], digest))
  }

  /** The stages a call can leave a context in. */
  predicate Resting(s: Stage) {
    s in {GetHeader, StoreHeader, Init, StoreCBlockSize, CopyDirect, GetCBlock, StoreCBlock, FlushOut, StoreSuffix}
  }

  ghost predicate Advanced(used: nat, before: Stage, next: Next, after: Stage) {
    next == Go ==>
      && (used > 0 || Rank(after) < Rank(before))
      && (after == IntoDst ==> before == StoreCBlock || before == DecodeCBlock)
  }

  class Dctx {
    const digest: Digest
    var dStage: Stage
    var frameInfo: Info
    var frameRemainingSize: int
    var xxh: Bytes
    var header: Bytes
    var tmpIn: Bytes
    var tmpInTarget: nat
    var tmpOut: Bytes
    var tmpOutStart: nat

    ghost function Now(): Ctx
      reads this
    {
      Ctx(dStage, frameInfo, frameRemainingSize, xxh, header, tmpIn, tmpInTarget, tmpOut, tmpOutStart)
    }

    ghost function Owed(selected: Bytes, rest: Bytes): Option<Bytes>
      reads this
    {
      Future(Now(), selected, rest, digest)
    }

    constructor (digest: Digest)
      ensures this.digest == digest && dStage == GetHeader && frameRemainingSize == 0
    {
      this.digest := digest;
      dStage, frameInfo, frameRemainingSize, xxh := GetHeader, Info(false, false, 0, 0), 0, [];
      header, tmpIn, tmpInTarget, tmpOut, tmpOutStart := [], [], 0, [], 0;
    }

    /** LZ4F_resetDecompressionContext: the next call starts a frame, whatever the context was in the middle
        of. Nothing else is reset, the remaining size neither. */
    method Reset()
      modifies this`dStage
      ensures dStage == GetHeader && Ready(Now())
    {
      dStage := GetHeader;
    }

    /** LZ4F_decodeHeader: reads a header, or keeps the part that is there. None is an error code; the model
        gives it for linked blocks, too. */
    method DecodeHeader(s: Bytes) returns (n: Option<nat>)
      modifies this
      ensures xxh == old(xxh)
      ensures |s| < MIN_HEADER ==> n.None?
      ensures |s| >= MIN_HEADER && HeaderSize(s[4]) <= |s| ==>
        (n.Some? <==> HasHeader(s, digest)) && (n.Some? <==> StartsWithHeader(s, digest))
        && (n.Some? ==> n.value == HeaderSize(s[4]) && dStage == Init && frameInfo == InfoOf(s)
                        && frameRemainingSize == old(StartingSize(s, frameRemainingSize)))
      ensures |s| >= MIN_HEADER && |s| < HeaderSize(s[4]) ==>
        (n.Some? <==> StartsFrame(s))
        && (n.Some? <==> s[..4] == [0x04, 0x22, 0x4D, 0x18] && s[4] in {0x48, 0x4C, 0x68, 0x6C})
        && (n.Some? ==> n.value == |s| && dStage == StoreHeader && header == s && tmpInTarget == HeaderSize(s[4])
                        && frameRemainingSize == old(frameRemainingSize))
    {
      hide ReadLE, StartsWithHeader;
      if |s| < MIN_HEADER { return None; }
      HeadersAreWritten(s, digest);
      SizedStart(s);
      if ReadLE(s[..4]) != MAGICNUMBER { return None; }
      var flg := s[4];
      if flg % 4 != 0 || flg / 64 % 4 != 1 || flg / 16 % 2 != 0 { return None; }
      var contentSizeFlag := flg / 8 % 2;
      var frameHeaderSize := if contentSizeFlag == 1 then MAX_HEADER else MIN_HEADER;
      if |s| < frameHeaderSize {
        header, tmpInTarget, dStage := s, frameHeaderSize, StoreHeader;
        return Some(|s|);
      }
      var bd := s[5];
      var blockSizeID := bd / 16 % 8;
      if bd / 128 % 2 != 0 || blockSizeID < 4 || bd % 16 != 0 { return None; }
      if digest(s[4..frameHeaderSize - 1]) / 256 % 256 != s[frameHeaderSize - 1] { return None; }
      if flg / 32 % 2 == 0 { return None; }
      frameInfo := Info(true, flg / 4 % 2 == 1, 0, GetBlockSize(blockSizeID));
      if contentSizeFlag == 1 {
        frameInfo := frameInfo.(contentSize := ReadLE(s[6..14]));
        frameRemainingSize := frameInfo.contentSize;
      }
      dStage := Init;
      return Some(frameHeaderSize);
    }

    // Each stage gets the input that is there, decides, and says how much of it it read. `rest` is that
    // input and whatever may come in later calls.

    method StageStoreHeader(input: Bytes, ghost rest: Bytes) returns (next: Next, used: nat)
      requires dStage == StoreHeader && Ready(Now()) && input <= rest
      modifies this
      ensures used <= |input| && Moved(old(Owed([], rest)), rest, used, [], next, Now(), [], digest)
      ensures Advanced(used, StoreHeader, next, dStage) && (next.Wait? ==> used == |input| && next.hint > 0)
    {
      hide ParseFrame, ParseBlocks, ReadLE, HasHeader, StartsFrame, InfoOf;
      used := tmpInTarget - |header|;
      if |input| < used { used := |input|; }
      Regroup(header, input, rest, used);
      header := header + input[..used];
      if |header| < tmpInTarget {
        PrependNothing(Owed([], rest[used..]));
        return Wait(tmpInTarget - |header| + BLOCK_HEADER), used;
      }
      ghost var stored := header;
      HeaderRead(stored, rest[used..], frameRemainingSize, digest);
      var n := DecodeHeader(header);
      PrependNothing(Owed([], rest[used..]));
      next := if n.None? then Fail else Go;
    }

    method StageGetHeader(input: Bytes, ghost rest: Bytes) returns (next: Next, used: nat)
      requires dStage == GetHeader && Ready(Now()) && input <= rest
      modifies this
      ensures used <= |input| && Moved(old(Owed([], rest)), rest, used, [], next, Now(), [], digest)
      ensures Advanced(used, GetHeader, next, dStage) && (next.Wait? ==> used == |input| && next.hint > 0)
    {
      hide ParseFrame, ParseBlocks, ReadLE, HasHeader, StartsFrame, InfoOf;
      if |input| >= MAX_HEADER {
        assert input + rest[|input|..] == rest;
        HeaderRead(input, rest[|input|..], frameRemainingSize, digest);
        var n := DecodeHeader(input);
        used := if n.None? then 0 else n.value;
        PrependNothing(Owed([], rest[used..]));
        return if n.None? then Fail else Go, used;
      }
      if |input| == 0 {
        PrependNothing(Owed([], rest[0..]));
        assert rest[0..] == rest;
        return Wait(MIN_HEADER), 0;
      }
      header, tmpInTarget, dStage := [], MIN_HEADER, StoreHeader;
      assert [] + rest == rest;
      next, used := StageStoreHeader(input, rest);
    }

    /** The size field of a block, or the end mark. */
    method DecodeCBlockSize(word: Bytes, dstLeft: nat, ghost rest: Bytes) returns (next: Next)
      requires |word| == BLOCK_HEADER
      modifies this
      ensures Moved(ParseBlocks(word + rest, old(Sofar(Now())), digest), rest, 0, [], next, Now(), [], digest)
      ensures next.Wait? ==> next.hint > 0 && dstLeft == 0
      ensures next == Go ==> dStage != IntoDst
    {
      hide ReadLE, ParseRaw, ParsePacked, ParseSuffix;
      assert (word + rest)[..BLOCK_HEADER] == word && (word + rest)[BLOCK_HEADER..] == rest && rest[0..] == rest;
      var nextCBlockSize := ReadLE(word) % BLOCK_UNCOMPRESSED;
      if nextCBlockSize == 0 {
        dStage := GetSuffix;
        PrependNothing(Owed([], rest));
        return Go;
      }
      if nextCBlockSize > frameInfo.maxBlockSize { return Fail; }
      tmpInTarget := nextCBlockSize;
      if ReadLE(word) / BLOCK_UNCOMPRESSED % 2 == 1 {
        dStage := CopyDirect;
        PrependNothing(Owed([], rest));
        return Go;
      }
      dStage := GetCBlock;
      PrependNothing(Owed([], rest));
      return if dstLeft == 0 then Wait(nextCBlockSize + BLOCK_HEADER) else Go;
    }

    method StageStoreCBlockSize(input: Bytes, dstLeft: nat, ghost rest: Bytes) returns (next: Next, used: nat)
      requires dStage == StoreCBlockSize && Ready(Now()) && input <= rest
      modifies this
      ensures used <= |input| && Moved(old(Owed([], rest)), rest, used, [], next, Now(), [], digest)
      ensures Advanced(used, StoreCBlockSize, next, dStage)
      ensures next.Wait? ==> next.hint > 0 && (used == |input| || dstLeft == 0)
    {
      hide ParseBlocks;
      used := BLOCK_HEADER - |tmpIn|;
      if |input| < used { used := |input|; }
      Regroup(tmpIn, input, rest, used);
      tmpIn := tmpIn + input[..used];
      if |tmpIn| < BLOCK_HEADER {
        PrependNothing(Owed([], rest[used..]));
        return Wait(BLOCK_HEADER - |tmpIn|), used;
      }
      next := DecodeCBlockSize(tmpIn, dstLeft, rest[used..]);
      assert rest[used..][0..] == rest[used..];
    }

    method StageGetCBlockSize(input: Bytes, dstLeft: nat, ghost rest: Bytes) returns (next: Next, used: nat)
      requires dStage == GetCBlockSize && input <= rest
      modifies this
      ensures used <= |input| && Moved(old(Owed([], rest)), rest, used, [], next, Now(), [], digest)
      ensures Advanced(used, StoreCBlockSize, next, dStage)
      ensures next.Wait? ==> next.hint > 0 && (used == |input| || dstLeft == 0)
    {
      hide ParseBlocks;
      if |input| >= BLOCK_HEADER {
        used := BLOCK_HEADER;
        assert input[..BLOCK_HEADER] + rest[BLOCK_HEADER..] == rest;
        next := DecodeCBlockSize(input[..BLOCK_HEADER], dstLeft, rest[BLOCK_HEADER..]);
        assert rest[used..][0..] == rest[used..];
        return;
      }
      tmpIn, dStage := [], StoreCBlockSize;
      assert [] + rest == rest;
      next, used := StageStoreCBlockSize(input, dstLeft, rest);
    }

    /** Starts hashing and the first block. */
    method StageInit(input: Bytes, dstLeft: nat, ghost rest: Bytes) returns (next: Next, used: nat)
      requires dStage == Init && input <= rest
      modifies this
      ensures used <= |input| && Moved(old(Owed([], rest)), rest, used, [], next, Now(), [], digest)
      ensures Advanced(used, StoreCBlockSize, next, dStage)
      ensures next.Wait? ==> next.hint > 0 && (used == |input| || dstLeft == 0)
    {
      hide ParseBlocks;
      if frameInfo.checksum { xxh := []; }
      tmpIn, tmpInTarget, tmpOut, tmpOutStart := [], 0, [], 0;
      dStage := GetCBlockSize;
      next, used := StageGetCBlockSize(input, dstLeft, rest);
    }

    /** An uncompressed block goes from the input to the output as far as both reach. */
    method StageCopyDirect(input: Bytes, dstLeft: nat, ghost rest: Bytes)
      returns (next: Next, used: nat, out: Bytes)
      requires dStage == CopyDirect && Ready(Now()) && input <= rest
      modifies this
      ensures used <= |input| && |out| <= dstLeft
      ensures Moved(old(Owed([], rest)), rest, used, out, next, Now(), [], digest)
      ensures Advanced(used, CopyDirect, next, dStage)
      ensures next.Wait? ==> next.hint > 0 && (used == |input| || |out| == dstLeft)
    {
      hide ParseBlocks;
      used := tmpInTarget;
      if |input| < used { used := |input|; }
      if dstLeft < used { used := dstLeft; }
      out := input[..used];
      RawPart(rest, tmpInTarget, used, Sofar(Now()), digest);
      assert rest[..used] == out;
      Account(out);
      if used == tmpInTarget {
        dStage := GetCBlockSize;
        return Go, used, out;
      }
      tmpInTarget := tmpInTarget - used;
      return Wait(tmpInTarget + BLOCK_HEADER), used, out;
    }

    /** Hashes and counts content that goes out. */
    method Account(d: Bytes)
      modifies this`xxh, this`frameRemainingSize
      ensures Sofar(Now()) == After(old(Sofar(Now())), d)
    {
      if frameInfo.checksum { xxh := xxh + d; }
      if frameInfo.contentSize != 0 { frameRemainingSize := frameRemainingSize - |d|; }
    }

    method StageGetCBlock(input: Bytes, ghost rest: Bytes) returns (next: Next, used: nat, selectedIn: Bytes)
      requires dStage == GetCBlock && Ready(Now()) && input <= rest
      modifies this
      ensures used <= |input| && next == Go
      ensures Moved(old(Owed([], rest)), rest, used, [], next, Now(), selectedIn, digest)
      ensures Advanced(used, GetCBlock, next, dStage)
    {
      hide ParseDecoded;
      if |input| < tmpInTarget {
        tmpIn, dStage := [], StoreCBlock;
        assert [] + rest == rest && rest[0..] == rest;
        PrependNothing(Owed([], rest));
        return Go, 0, [];
      }
      used, selectedIn := tmpInTarget, input[..tmpInTarget];
      assert rest[..used] == selectedIn;
      dStage := DecodeCBlock;
      PrependNothing(Owed(selectedIn, rest[used..]));
      next := Go;
    }

    method StageStoreCBlock(input: Bytes, dstLeft: nat, ghost rest: Bytes)
      returns (next: Next, used: nat, selectedIn: Bytes)
      requires dStage == StoreCBlock && Ready(Now()) && input <= rest
      modifies this
      ensures used <= |input|
      ensures Moved(old(Owed([], rest)), rest, used, [], next, Now(), selectedIn, digest)
      ensures Advanced(used, StoreCBlock, next, dStage) && (next.Wait? ==> next.hint > 0 && used == |input|)
      ensures dStage == IntoDst ==> dstLeft >= frameInfo.maxBlockSize
    {
      hide ParseDecoded;
      used := tmpInTarget - |tmpIn|;
      if |input| < used { used := |input|; }
      Regroup(tmpIn, input, rest, used);
      tmpIn := tmpIn + input[..used];
      if |tmpIn| < tmpInTarget {
        PrependNothing(Owed([], rest[used..]));
        return Wait(tmpInTarget - |tmpIn| + BLOCK_HEADER), used, [];
      }
      selectedIn := tmpIn;
      Split(tmpIn, rest[used..]);
      dStage := DecodeCBlock;
      PrependNothing(Owed(selectedIn, rest[used..]));
      StageDecodeCBlock(selectedIn, dstLeft, rest[used..]);
      next := Go;
    }

    /** Whether a whole block fits the output decides where it is decoded to. */
    method StageDecodeCBlock(selectedIn: Bytes, dstLeft: nat, ghost rest: Bytes)
      requires dStage == DecodeCBlock
      modifies this`dStage
      ensures dStage == if dstLeft < frameInfo.maxBlockSize then IntoTmp else IntoDst
      ensures Ready(Now()) && Owed(selectedIn, rest) == old(Owed(selectedIn, rest))
    {
      hide ParseDecoded;
      dStage := if dstLeft < frameInfo.maxBlockSize then IntoTmp else IntoDst;
    }

    method StageIntoDst(selectedIn: Bytes, dstLeft: nat, ghost rest: Bytes) returns (next: Next, out: Bytes)
      requires dStage == IntoDst && dstLeft >= frameInfo.maxBlockSize
      modifies this
      ensures |out| <= dstLeft && !next.Wait?
      ensures Moved(old(Owed(selectedIn, rest)), rest, 0, out, next, Now(), [], digest)
      ensures Advanced(0, IntoDst, next, dStage)
    {
      hide DecodeBlock, ParseBlocks;
      assert rest[0..] == rest;
      var decoded := DecodeBlock(selectedIn, frameInfo.maxBlockSize);
      if decoded.None? { return Fail, []; }
      out := decoded.value;
      BlockFits(selectedIn, frameInfo.maxBlockSize);
      Account(out);
      dStage := GetCBlockSize;
      next := Go;
    }

    method StageIntoTmp(selectedIn: Bytes, ghost rest: Bytes) returns (next: Next)
      requires dStage == IntoTmp
      modifies this
      ensures !next.Wait? && Moved(old(Owed(selectedIn, rest)), rest, 0, [], next, Now(), [], digest)
      ensures Advanced(0, IntoTmp, next, dStage)
    {
      hide DecodeBlock, ParseBlocks;
      assert rest[0..] == rest;
      var decoded := DecodeBlock(selectedIn, frameInfo.maxBlockSize);
      if decoded.None? { return Fail; }
      Account(decoded.value);
      tmpOut, tmpOutStart, dStage := decoded.value, 0, FlushOut;
      assert tmpOut[0..] == tmpOut;
      PrependNothing(Owed([], rest));
      next := Go;
    }

    method StageFlushOut(dstLeft: nat, ghost rest: Bytes) returns (next: Next, out: Bytes)
      requires dStage == FlushOut && Ready(Now())
      modifies this
      ensures |out| <= dstLeft && Moved(old(Owed([], rest)), rest, 0, out, next, Now(), [], digest)
      ensures Advanced(0, FlushOut, next, dStage) && (next.Wait? ==> next.hint > 0 && |out| == dstLeft)
    {
      hide ParseBlocks;
      var sizeToCopy := |tmpOut| - tmpOutStart;
      if dstLeft < sizeToCopy { sizeToCopy := dstLeft; }
      out := tmpOut[tmpOutStart..tmpOutStart + sizeToCopy];
      assert rest[0..] == rest;
      assert tmpOut[tmpOutStart..] == out + tmpOut[tmpOutStart + sizeToCopy..];
      PrependTwice(out, tmpOut[tmpOutStart + sizeToCopy..], ParseBlocks(rest, Sofar(Now()), digest));
      tmpOutStart := tmpOutStart + sizeToCopy;
      if tmpOutStart == |tmpOut| {
        PrependNothing(ParseBlocks(rest, Sofar(Now()), digest));
        dStage := GetCBlockSize;
        return Go, out;
      }
      return Wait(BLOCK_HEADER), out;
    }

    /** The checksum of the content. */
    method CheckChecksum(word: Bytes, ghost rest: Bytes) returns (next: Next)
      requires |word| == 4 && frameRemainingSize == 0 && frameInfo.checksum
      modifies this
      ensures Moved(CheckSuffix(word + rest, old(Sofar(Now())), digest), rest, 0, [], next, Now(), [], digest)
      ensures next == Fail || next == Wait(0)
    {
      hide ReadLE;
      if rest == [] { assert word + rest == word; }
      if ReadLE(word) != digest(xxh) { return Fail; }
      dStage := GetHeader;
      return Wait(0);
    }

    method StageStoreSuffix(input: Bytes, ghost rest: Bytes) returns (next: Next, used: nat)
      requires dStage == StoreSuffix && Ready(Now()) && input <= rest
      modifies this
      ensures used <= |input| && Moved(old(Owed([], rest)), rest, used, [], next, Now(), [], digest)
      ensures next != Go && (next.Wait? ==> next.hint == 0 || used == |input|)
    {
      hide CheckSuffix;
      used := 4 - |tmpIn|;
      if |input| < used { used := |input|; }
      Regroup(tmpIn, input, rest, used);
      tmpIn := tmpIn + input[..used];
      if |tmpIn| < 4 {
        PrependNothing(Owed([], rest[used..]));
        return Wait(4 - |tmpIn|), used;
      }
      next := CheckChecksum(tmpIn, rest[used..]);
    }

    /** The announced content must be complete; then the frame ends, with or without a checksum. */
    method StageGetSuffix(input: Bytes, ghost rest: Bytes) returns (next: Next, used: nat)
      requires dStage == GetSuffix && input <= rest
      modifies this
      ensures used <= |input| && Moved(old(Owed([], rest)), rest, used, [], next, Now(), [], digest)
      ensures next != Go && (next.Wait? ==> next.hint == 0 || used == |input|)
    {
      hide CheckSuffix;
      used := 0;
      if frameRemainingSize != 0 { return Fail, 0; }
      if !frameInfo.checksum {
        dStage := GetHeader;
        return Wait(0), 0;
      }
      if |input| < 4 {
        tmpIn, dStage := [], StoreSuffix;
        assert [] + rest == rest;
        next, used := StageStoreSuffix(input, rest);
        return;
      }
      used := 4;
      assert input[..4] + rest[4..] == rest;
      next := CheckChecksum(input[..4], rest[4..]);
    }

    /** One turn of the loop. */
    method StageAny(input: Bytes, selectedIn: Bytes, dstLeft: nat, ghost rest: Bytes)
      returns (next: Next, used: nat, out: Bytes, selected: Bytes)
      requires Ready(Now()) && input <= rest
      requires dStage == IntoDst ==> dstLeft >= frameInfo.maxBlockSize
      modifies this
      ensures used <= |input| && |out| <= dstLeft
      ensures Moved(old(Owed(selectedIn, rest)), rest, used, out, next, Now(), selected, digest)
      ensures Advanced(used, old(dStage), next, dStage)
      ensures next.Wait? && next.hint > 0 ==> used == |input| || |out| == dstLeft
      ensures next == Go && dStage == IntoDst ==> out == [] && dstLeft >= frameInfo.maxBlockSize
    {
      hide Future, Sofar;
      used, out, selected := 0, [], [];
      SelectedOnlyForDecoding(Now(), selectedIn, rest, digest);
      match dStage {
        case GetHeader => next, used := StageGetHeader(input, rest);
        case StoreHeader => next, used := StageStoreHeader(input, rest);
        case Init => next, used := StageInit(input, dstLeft, rest);
        case GetCBlockSize => next, used := StageGetCBlockSize(input, dstLeft, rest);
        case StoreCBlockSize => next, used := StageStoreCBlockSize(input, dstLeft, rest);
        case CopyDirect => next, used, out := StageCopyDirect(input, dstLeft, rest);
        case GetCBlock => next, used, selected := StageGetCBlock(input, rest);
        case StoreCBlock => next, used, selected := StageStoreCBlock(input, dstLeft, rest);
        case DecodeCBlock =>
          StageDecodeCBlock(selectedIn, dstLeft, rest);
          selected, next := selectedIn, Go;
          assert rest[0..] == rest;
          PrependNothing(Owed(selected, rest));
        case IntoDst => next, out := StageIntoDst(selectedIn, dstLeft, rest);
        case IntoTmp => next := StageIntoTmp(selectedIn, rest);
        case FlushOut => next, out := StageFlushOut(dstLeft, rest);
        case GetSuffix => next, used := StageGetSuffix(input, rest);
        case StoreSuffix => next, used := StageStoreSuffix(input, rest);
      }
    }

    /** LZ4F_decompress: one call with some input and some room for output. It reads at most the input and
        writes at most the room; it stops only when one of them is used up or the frame has ended. */
    method Decompress(src: Bytes, dstCapacity: nat, ghost later: Bytes) returns (next: Next, srcSize: nat, out: Bytes)
      requires Ready(Now()) && Resting(dStage)
      modifies this
      ensures next != Go && srcSize <= |src| && |out| <= dstCapacity
      ensures Moved(old(Owed([], src + later)), src + later, srcSize, out, next, Now(), [], digest)
      ensures next.Wait? && next.hint > 0 ==> srcSize == |src| || |out| == dstCapacity
    {
      hide Ready, Future, Sofar, Resting;
      ghost var all, before := src + later, Owed([], src + later);
      var selectedIn: Bytes := [];
      next, srcSize, out := Go, 0, [];
      PrependNothing(Owed([], all));
      assert all[0..] == all;
      RestingIsNotDecoding(dStage);
      while true
        invariant srcSize <= |src| && |out| <= dstCapacity && Ready(Now())
        invariant before == Prepend(out, Owed(selectedIn, all[srcSize..]))
        invariant dStage == IntoDst ==> dstCapacity - |out| >= frameInfo.maxBlockSize
        decreases |src| - srcSize, Rank(dStage)
      {
        assert src[srcSize..] <= all[srcSize..];
        ghost var rest := all[srcSize..];
        var used, piece;
        next, used, piece, selectedIn := StageAny(src[srcSize..], selectedIn, dstCapacity - |out|, rest);
        if next.Fail? { return Fail, 0, []; }
        PrependTwice(out, piece, Future(Now(), selectedIn, rest[used..], digest));
        assert rest[used..] == all[srcSize + used..];
        out, srcSize := out + piece, srcSize + used;
        if next.Wait? {
          SelectedOnlyForDecoding(Now(), selectedIn, all[srcSize..], digest);
          RestingIsNotDecoding(dStage);
          return;
        }
      }
    }

    /** LZ4F_getFrameInfo: at the beginning of a frame it reads the header, which has to be there as a whole; in
        the middle of one it reads nothing. */
    method GetFrameInfo(src: Bytes, ghost later: Bytes) returns (next: Next, srcSize: nat)
      requires Ready(Now()) && Resting(dStage)
      modifies this
      ensures srcSize <= |src| && (old(dStage) != GetHeader ==> srcSize == 0)
      ensures old(dStage) == StoreHeader ==> next == Fail && Now() == old(Now())
      ensures old(dStage) == GetHeader ==>
        (next == Wait(BLOCK_HEADER) <==> HasHeader(src, digest)) && (next == Wait(BLOCK_HEADER) || next == Fail)
      ensures old(dStage) == GetHeader && next == Wait(BLOCK_HEADER) ==>
        && srcSize == HeaderSize(src[4]) && dStage == Init && frameInfo == InfoOf(src)
        && frameRemainingSize == old(StartingSize(src, frameRemainingSize))
        && Owed([], (src + later)[srcSize..]) == old(Owed([], src + later))
    {
      hide ReadLE, ParseFrame, ParseBlocks;
      if dStage != GetHeader && dStage != StoreHeader {
        var out;
        next, srcSize, out := Decompress([], 0, later);
        return;
      }
      if dStage == StoreHeader || |src| < 5 || ReadLE(src[..4]) != MAGICNUMBER { return Fail, 0; }
      var hSize := if src[4] / 8 % 2 == 1 then MAX_HEADER else MIN_HEADER;
      if |src| < hSize { return Fail, 0; }
      HeaderIsLocal(src[..hSize], src, digest);
      HeaderRead(src[..hSize], src[hSize..] + later, frameRemainingSize, digest);
      assert src[..hSize] + (src[hSize..] + later) == src + later;
      var n := DecodeHeader(src[..hSize]);
      if n.None? { return Fail, 0; }
      return Wait(BLOCK_HEADER), n.value;
    }
  }

  lemma RestingIsNotDecoding(s: Stage)
    ensures Resting(s) ==> s != DecodeCBlock && s != IntoDst && s != IntoTmp
  {}

  lemma SelectedOnlyForDecoding(c: Ctx, selected: Bytes, rest: Bytes, digest: Digest)
    ensures !c.dStage.DecodeCBlock? && !c.dStage.IntoDst? && !c.dStage.IntoTmp? ==>
      Future(c, selected, rest, digest) == Future(c, [], rest, digest)
  {}

  lemma PrependNothing(more: Option<Bytes>)
    ensures Prepend([], more) == more
  {
    if more.Some? { assert [] + more.value == more.value; }
  }

  /** Bytes moved from the input to a buffer are still in front of what follows them. */
  lemma Regroup(buffer: Bytes, input: Bytes, rest: Bytes, used: nat)
    requires input <= rest && used <= |input|
    ensures buffer + rest == (buffer + input[..used]) + rest[used..]
  {
    assert rest == input[..used] + rest[used..];
  }

  /** The front of a frame, long enough to try, decides about its header or is the start of one. */
  lemma HeaderRead(s: Bytes, more: Bytes, leftover: int, digest: Digest)
    requires |s| >= MIN_HEADER
    ensures !StartsFrame(s) ==> ParseFrame(s + more, leftover, digest).None?
    ensures HeaderSize(s[4]) <= |s| ==>
      ParseFrame(s + more, leftover, digest) ==
        if HasHeader(s, digest)
        then ParseBlocks((s + more)[HeaderSize(s[4])..], Progress(InfoOf(s), [], StartingSize(s, leftover)), digest)
        else None
    ensures HeaderSize(s[4]) == |s| ==> (s + more)[|s|..] == more
  {
    hide ParseBlocks, ReadLE;
    assert (s + more)[..4] == s[..4];
    if HeaderSize(s[4]) <= |s| { HeaderIsLocal(s, s + more, digest); }
  }

  lemma PrependTwice(a: Bytes, b: Bytes, more: Option<Bytes>)
    ensures Prepend(a, Prepend(b, more)) == Prepend(a + b, more)
  {
    if more.Some? { assert a + (b + more.value) == (a + b) + more.value; }
  }

  /** A part of an uncompressed block and the rest of it. */
  lemma RawPart(s: Bytes, size: nat, k: nat, p: Progress, digest: Digest)
    requires k <= size && k <= |s|
    ensures var more := ParseRaw(s[k..], size - k, After(p, s[..k]), digest);
      ParseRaw(s, size, p, digest) == Prepend(s[..k], more)
      && (k == size ==> more == ParseBlocks(s[k..], After(p, s[..k]), digest))
  {
    hide ParseBlocks;
    if size <= |s| {
      var a, b := s[..k], s[k..size];
      assert s[..size] == a + b && s[k..][..size - k] == b && s[k..][size - k..] == s[size..];
      assert After(After(p, a), b) == After(p, a + b) by { assert p.hashed + (a + b) == (p.hashed + a) + b; }
      PrependTwice(a, b, ParseBlocks(s[size..], After(p, a + b), digest));
      if k == size {
        assert b == [];
        assert After(p, a) == After(p, a + b) by { assert a + b == a; }
        PrependNothing(ParseBlocks(s[size..], After(p, a), digest));
      }
    }
  }

  lemma BlockFits(data: Bytes, maxBlockSize: nat)
    requires DecodeBlock(data, maxBlockSize).Some?
    ensures |DecodeBlock(data, maxBlockSize).value| <= maxBlockSize
  {
    if maxBlockSize > 0 { OutputFits(data, [], maxBlockSize); }
  }

  lemma {:induction false} OutputFits(data: Bytes, out: Bytes, cap: nat)
    requires Readable(data) && |out| <= cap
    ensures DecodeRest(data, out, cap).Decoded? ==> |DecodeRest(data, out, cap).out| <= cap
    decreases |data|
  {
    hide ReadToken, ReadMatch;
    var lits := StepLiterals(data, out, cap);
    if lits.AtMatch? {
      var copy := StepMatch(lits.rest, data[0] % 16, lits.sofar, cap);
      if copy.Copied? { OutputFits(copy.rest, copy.sofar, cap); }
    }
  }
}

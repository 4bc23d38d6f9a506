/** How frames are written, and that exactly what is written like that is read as a frame. */
module Lz4FrameFormat {
  import opened Wrappers
  import opened Integers
  import opened Lz4Format
  import opened Lz4Frame

  // ----- Blocks -----

  datatype FrameBlock = Raw(data: Bytes) | Packed(data: Bytes)

  predicate BlockValid(b: FrameBlock, maxBlockSize: nat) {
    && 0 < |b.data| <= maxBlockSize
    && (b.Packed? ==> DecodeBlock(b.data, maxBlockSize).Some?)
  }

  function ContentOf(b: FrameBlock, maxBlockSize: nat): Bytes
    requires BlockValid(b, maxBlockSize)
  {
    if b.Raw? then b.data else DecodeBlock(b.data, maxBlockSize).value
  }

  function BlockBytes(b: FrameBlock): Bytes {
    LittleEndian(|b.data| + if b.Raw? then 0x8000_0000 else 0, 4) + b.data
  }

  function BlocksBytes(bs: seq<FrameBlock>): Bytes {
    if bs == [] then [] else BlockBytes(bs[0]) + BlocksBytes(bs[1..])
  }

  function Content(bs: seq<FrameBlock>, maxBlockSize: nat): Bytes
    requires forall b :: b in bs ==> BlockValid(b, maxBlockSize)
  {
    if bs == [] then [] else ContentOf(bs[0], maxBlockSize) + Content(bs[1..], maxBlockSize)
  }

  /** A size of zero; the flag for uncompressed blocks makes no difference to it. */
  function EndMark(flagged: bool): Bytes {
    [0, 0, 0, if flagged then 0x80 else 0]
  }

  /** Blocks, end mark and, when asked for, the checksum of the content. */
  function BodyBytes(bs: seq<FrameBlock>, flagged: bool, info: Info, content: Bytes, digest: Digest): Bytes {
    BlocksBytes(bs) + EndMark(flagged) + if info.checksum then LittleEndian(digest(content), 4) else []
  }

  lemma Split(a: Bytes, b: Bytes)
    ensures (a + b)[..|a|] == a && (a + b)[|a|..] == b
  {}

  lemma WordReadsBack(n: nat)
    requires n < 2 * BLOCK_UNCOMPRESSED
    ensures ReadLE(LittleEndian(n, 4)) == n
  {
    assert Pow256(4) == 2 * BLOCK_UNCOMPRESSED;
    ReadsBack(n, 4);
  }

  /** The end mark leads to the suffix. */
  lemma EndParses(flagged: bool, suffix: Bytes, p: Progress, digest: Digest)
    ensures ParseBlocks(EndMark(flagged) + suffix, p, digest) == ParseSuffix(suffix, p, digest)
  {
    hide ReadLE, ParseSuffix, ParseRaw, ParsePacked;
    Split(EndMark(flagged), suffix);
    ReadsFour(0, 0, 0, if flagged then 0x80 else 0);
  }

  lemma DecodedParses(data: Bytes, more: Bytes, p: Progress, digest: Digest)
    requires DecodeBlock(data, p.info.maxBlockSize).Some?
    ensures var d := DecodeBlock(data, p.info.maxBlockSize).value;
      ParseDecoded(data, more, p, digest) == Prepend(d, ParseBlocks(more, After(p, d), digest))
  {
    hide ParseBlocks, DecodeBlock;
  }

  /** A valid block in front contributes its content. */
  lemma BlockParses(b: FrameBlock, more: Bytes, p: Progress, digest: Digest)
    requires BlockValid(b, p.info.maxBlockSize) && p.info.maxBlockSize < BLOCK_UNCOMPRESSED
    ensures var d := ContentOf(b, p.info.maxBlockSize);
      ParseBlocks(BlockBytes(b) + more, p, digest) == Prepend(d, ParseBlocks(more, After(p, d), digest))
  {
    hide LittleEndian, ReadLE, DecodeBlock, ParseBlocks;
    var word := |b.data| + if b.Raw? then BLOCK_UNCOMPRESSED else 0;
    WordReadsBack(word);
    assert BlockBytes(b) + more == LittleEndian(word, 4) + (b.data + more);
    SizedParses(LittleEndian(word, 4), b.data + more, |b.data|, b.Raw?, p, digest);
    Split(b.data, more);
    if b.Packed? {
      assert ParsePacked(b.data + more, |b.data|, p, digest) == ParseDecoded(b.data, more, p, digest);
      DecodedParses(b.data, more, p, digest);
    }
  }

  /** What a size field in front of a block leads to. */
  lemma SizedParses(word: Bytes, rest: Bytes, size: nat, raw: bool, p: Progress, digest: Digest)
    requires |word| == 4 && 0 < size <= p.info.maxBlockSize && size < 0x8000_0000
    requires ReadLE(word) == size + if raw then 0x8000_0000 else 0
    ensures ParseBlocks(word + rest, p, digest) ==
      if raw then ParseRaw(rest, size, p, digest) else ParsePacked(rest, size, p, digest)
  {
    hide ReadLE, ParseRaw, ParsePacked, ParseSuffix;
    Split(word, rest);
    assert ReadLE(word) % 0x8000_0000 == size && ReadLE(word) / 0x8000_0000 % 2 == if raw then 1 else 0;
  }

  lemma SuffixParses(p: Progress, content: Bytes, digest: Digest)
    requires p.remaining == 0 && (p.info.checksum ==> content == p.hashed && digest(content) < 0x1_0000_0000)
    ensures ParseSuffix(if p.info.checksum then LittleEndian(digest(content), 4) else [], p, digest) == Some([])
  {
    if p.info.checksum { WordReadsBack(digest(content)); }
  }

  /** A written body parses back to its content, whatever was hashed before, when the sizes add up. */
  lemma {:induction false} WrittenBodyParses(bs: seq<FrameBlock>, flagged: bool, p: Progress, content: Bytes,
                                             digest: Digest)
    requires p.info.maxBlockSize < BLOCK_UNCOMPRESSED && (p.info.checksum ==> digest(content) < 0x1_0000_0000)
    requires forall b :: b in bs ==> BlockValid(b, p.info.maxBlockSize)
    requires p.info.checksum ==> content == p.hashed + Content(bs, p.info.maxBlockSize)
    requires p.remaining == if p.info.contentSize != 0 then |Content(bs, p.info.maxBlockSize)| else 0
    ensures ParseBlocks(BodyBytes(bs, flagged, p.info, content, digest), p, digest)
         == Some(Content(bs, p.info.maxBlockSize))
  {
    hide LittleEndian, ReadLE, ParseBlocks, BlockValid, ContentOf, BlockBytes, EndMark;
    var suffix := if p.info.checksum then LittleEndian(digest(content), 4) else [];
    if bs == [] {
      assert p.hashed + [] == p.hashed;
      assert BodyBytes(bs, flagged, p.info, content, digest) == EndMark(flagged) + suffix;
      EndParses(flagged, suffix, p, digest);
      SuffixParses(p, content, digest);
    } else {
      var d := ContentOf(bs[0], p.info.maxBlockSize);
      var p' := After(p, d);
      var more := Content(bs[1..], p.info.maxBlockSize);
      assert p.hashed + (d + more) == (p.hashed + d) + more;
      WrittenBodyParses(bs[1..], flagged, p', content, digest);
      var body := BodyBytes(bs[1..], flagged, p.info, content, digest);
      assert BodyBytes(bs, flagged, p.info, content, digest) == BlockBytes(bs[0]) + body;
      BlockParses(bs[0], body, p, digest);
    }
  }

  // ----- Headers -----

  const MAX_BLOCK_SIZES: seq<nat> := [0x1_0000, 0x4_0000, 0x10_0000, 0x40_0000]

  /** FLG: version 1, independent blocks, and whether there is a content size and a checksum of the content. */
  function Flg(checksum: bool, sized: bool): Byte {
    0x60 + (if checksum then 4 else 0) + (if sized then 8 else 0)
  }

  /** FLG, BD and the content size. */
  function DescriptorBytes(checksum: bool, size: Option<nat>, id: nat): Bytes
    requires id <= 7
  {
    [Flg(checksum, size.Some?), 16 * id] + if size.Some? then LittleEndian(size.value, 8) else []
  }

  /** A header: the magic bytes, the descriptor, and the second byte of its digest. */
  function HeaderBytes(checksum: bool, size: Option<nat>, id: nat, digest: Digest): Bytes
    requires id <= 7
  {
    [0x04, 0x22, 0x4D, 0x18] + DescriptorBytes(checksum, size, id)
      + [digest(DescriptorBytes(checksum, size, id)) / 256 % 256]
  }

  lemma Descriptor(checksum: bool, size: Option<nat>, id: nat, digest: Digest)
    requires 4 <= id <= 7
    ensures var h, d := HeaderBytes(checksum, size, id, digest), DescriptorBytes(checksum, size, id);
      var n := if size.Some? then 15 else 7;
      && |h| == n && h[..4] == [0x04, 0x22, 0x4D, 0x18] && h[4] == Flg(checksum, size.Some?) && h[5] == 16 * id
      && h[4..n - 1] == d && h[n - 1] == digest(d) / 256 % 256
      && (size.Some? ==> h[6..14] == LittleEndian(size.value, 8))
  {
    hide LittleEndian;
  }

  lemma FlagsReadBack(checksum: bool, sized: bool, id: nat)
    requires 4 <= id <= 7
    ensures var f := Flg(checksum, sized);
      && FlagsValid(f) && DescriptorValid(16 * id) && f / 32 % 2 == 1 && HeaderSize(f) == (if sized then 15 else 7)
      && (f / 4 % 2 == 1 <==> checksum) && (f / 8 % 2 == 1 <==> sized)
      && 16 * id / 16 % 8 == id && GetBlockSize(id) == MAX_BLOCK_SIZES[id - 4]
  {}

  /** What is written as a header is one, and gives its parameters back. */
  lemma WrittenHeader(checksum: bool, size: Option<nat>, id: nat, digest: Digest)
    requires 4 <= id <= 7 && (size.Some? ==> size.value < 0x1_0000_0000_0000_0000)
    ensures var h := HeaderBytes(checksum, size, id, digest);
      && HasHeader(h, digest) && |h| == HeaderSize(h[4]) == (if size.Some? then 15 else 7)
      && InfoOf(h) == Info(true, checksum, if size.Some? then size.value else 0,
                           [0x1_0000, 0x4_0000, 0x10_0000, 0x40_0000][id - 4])
  {
    hide ReadLE, LittleEndian, HeaderBytes, DescriptorBytes, FlagsValid, DescriptorValid, HeaderSize, Flg, GetBlockSize,
      Pow256;
    var h := HeaderBytes(checksum, size, id, digest);
    Descriptor(checksum, size, id, digest);
    FlagsReadBack(checksum, size.Some?, id);
    ReadsFour(0x04, 0x22, 0x4D, 0x18);
    if size.Some? {
      EightBytes();
      ReadsBack(size.value, 8);
    }
  }

  /** And every header is written like that. */
  lemma HeaderIsWritten(s: Bytes, digest: Digest) returns (checksum: bool, size: Option<nat>, id: nat)
    requires HasHeader(s, digest)
    ensures 4 <= id <= 7 && (size.Some? ==> size.value < 0x1_0000_0000_0000_0000)
    ensures HeaderBytes(checksum, size, id, digest) <= s
  {
    hide ReadLE, LittleEndian, Pow256;
    var n := HeaderSize(s[4]);
    checksum, id := s[4] / 4 % 2 == 1, s[5] / 16 % 8;
    size := if s[4] / 8 % 2 == 1 then Some(ReadLE(s[6..14])) else None;
    MagicBytes(s[..4]);
    assert s[4] == Flg(checksum, size.Some?) && s[5] == 16 * id;
    if size.Some? {
      EightBytes();
      ReadIsBelow(s[6..14]);
      WritesBack(s[6..14]);
      assert s[4..14] == [s[4], s[5]] + s[6..14];
    }
    assert s[4..n - 1] == DescriptorBytes(checksum, size, id);
    ThreeParts(s, n);
  }

  lemma ThreeParts(s: Bytes, n: nat)
    requires 5 <= n <= |s|
    ensures s[..n] == s[..4] + s[4..n - 1] + [s[n - 1]] && s[..n] <= s
  {}

  lemma MagicBytes(s: Bytes)
    requires |s| == 4 && ReadLE(s) == MAGICNUMBER
    ensures s == [0x04, 0x22, 0x4D, 0x18]
  {
    ReadsFour(s[0], s[1], s[2], s[3]);
    assert s == [s[0], s[1], s[2], s[3]];
  }

  /** What may be in front of a header that gives a content size. */
  lemma SizedStart(s: Bytes)
    requires |s| >= 5
    ensures StartsFrame(s) && HeaderSize(s[4]) == 15 <==>
      s[..4] == [0x04, 0x22, 0x4D, 0x18] && s[4] in {0x48, 0x4C, 0x68, 0x6C}
  {
    hide ReadLE;
    ReadsFour(0x04, 0x22, 0x4D, 0x18);
    if ReadLE(s[..4]) == MAGICNUMBER { MagicBytes(s[..4]); }
  }

  /** Some header of these is in front. */
  ghost predicate StartsWithHeader(s: Bytes, digest: Digest) {
    exists checksum: bool, size: Option<nat>, id: nat ::
      4 <= id <= 7 && (size.Some? ==> size.value < 0x1_0000_0000_0000_0000)
      && HeaderBytes(checksum, size, id, digest) <= s
  }

  lemma HeadersAreWritten(s: Bytes, digest: Digest)
    ensures HasHeader(s, digest) <==> StartsWithHeader(s, digest)
  {
    hide HasHeader, HeaderBytes, HeaderSize, InfoOf;
    if HasHeader(s, digest) {
      var checksum, size, id := HeaderIsWritten(s, digest);
    }
    if StartsWithHeader(s, digest) {
      var checksum: bool, size: Option<nat>, id: nat :|
        4 <= id <= 7 && (size.Some? ==> size.value < 0x1_0000_0000_0000_0000)
        && HeaderBytes(checksum, size, id, digest) <= s;
      WrittenHeader(checksum, size, id, digest);
      HeaderIsLocal(HeaderBytes(checksum, size, id, digest), s, digest);
    }
  }

  // ----- Whole frames -----

  /** What makes up a frame with independent blocks. */
  datatype Frame = Frame(checksum: bool, size: Option<nat>, id: nat, blocks: seq<FrameBlock>, flagged: bool)

  ghost predicate Sound(f: Frame) {
    4 <= f.id <= 7 && forall b :: b in f.blocks ==> BlockValid(b, MAX_BLOCK_SIZES[f.id - 4])
  }

  ghost function ContentOfFrame(f: Frame): Bytes
    requires Sound(f)
  {
    Content(f.blocks, MAX_BLOCK_SIZES[f.id - 4])
  }

  /** The content size in the header is that of the content; or 0, which is taken for none. */
  ghost predicate Fitting(f: Frame, digest: Digest)
    requires Sound(f)
  {
    var content := ContentOfFrame(f);
    && (f.size.Some? ==> f.size.value in {0, |content|} && f.size.value < 0x1_0000_0000_0000_0000)
    && (f.checksum ==> digest(content) < 0x1_0000_0000)
  }

  ghost function FrameBytes(f: Frame, digest: Digest): Bytes
    requires Sound(f)
  {
    HeaderBytes(f.checksum, f.size, f.id, digest) + BlocksBytes(f.blocks) + EndMark(f.flagged)
      + if f.checksum then LittleEndian(digest(ContentOfFrame(f)), 4) else []
  }

  lemma BodyIs(header: Bytes, bs: seq<FrameBlock>, flagged: bool, info: Info, content: Bytes, digest: Digest)
    ensures header + BodyBytes(bs, flagged, info, content, digest) ==
      header + BlocksBytes(bs) + EndMark(flagged) + if info.checksum then LittleEndian(digest(content), 4) else []
  {
    hide BlocksBytes, EndMark;
  }

  lemma FrameWithHeader(header: Bytes, body: Bytes, digest: Digest)
    requires HasHeader(header, digest) && |header| == HeaderSize(header[4])
    ensures FrameContent(header + body, digest) ==
      ParseBlocks(body, Progress(InfoOf(header), [], InfoOf(header).contentSize), digest)
  {
    hide ParseBlocks, ReadLE;
    Split(header, body);
    HeaderIsLocal(header, header + body, digest);
  }

  /** What is written as a frame is one, and its content is that of its blocks. */
  lemma WrittenFrameParses(f: Frame, digest: Digest)
    requires Sound(f) && Fitting(f, digest)
    ensures FrameContent(FrameBytes(f, digest), digest) == Some(ContentOfFrame(f))
  {
    hide ParseBlocks, BlocksBytes, BodyBytes, BlockValid, Content, HeaderBytes, HasHeader, InfoOf, HeaderSize,
      FrameContent, LittleEndian, EndMark;
    var content := ContentOfFrame(f);
    var header := HeaderBytes(f.checksum, f.size, f.id, digest);
    WrittenHeader(f.checksum, f.size, f.id, digest);
    var info := InfoOf(header);
    BodyIs(header, f.blocks, f.flagged, info, content, digest);
    FrameWithHeader(header, BodyBytes(f.blocks, f.flagged, info, content, digest), digest);
    assert [] + content == content;
    WrittenBodyParses(f.blocks, f.flagged, Progress(info, [], info.contentSize), content, digest);
  }

  // ----- Every frame is written like that -----

  /** The size field of a block, taken apart. */
  lemma WordWritesBack(word: Bytes)
    requires |word| == 4
    ensures var w := ReadLE(word); var size := w % 0x8000_0000;
      && w / 0x8000_0000 < 2 && LittleEndian(size + if w / 0x8000_0000 % 2 == 1 then 0x8000_0000 else 0, 4) == word
      && (size == 0 ==> word == EndMark(w / 0x8000_0000 % 2 == 1))
  {
    hide LittleEndian, ReadLE, EndMark;
    WritesBack(word);
    ReadIsBelow(word);
    assert Pow256(4) == 0x1_0000_0000;
    if ReadLE(word) % 0x8000_0000 == 0 { ZeroWord(word[0], word[1], word[2], word[3]); }
    assert word == [word[0], word[1], word[2], word[3]];
  }

  lemma ZeroWord(a: Byte, b: Byte, c: Byte, d: Byte)
    requires ReadLE([a, b, c, d]) % 0x8000_0000 == 0
    ensures [a, b, c, d] == EndMark(ReadLE([a, b, c, d]) / 0x8000_0000 % 2 == 1)
  {
    hide ReadLE;
    ReadsFour(a, b, c, d);
    var low := a + 0x100 * b + 0x1_0000 * c;
    var w := low + 0x100_0000 * d;
    if d < 128 {
      assert w < 0x8000_0000;
    } else {
      assert w == 0x8000_0000 + (low + 0x100_0000 * (d - 128)) && w / 0x8000_0000 == 1;
    }
  }

  /** What the size field in front decides. */
  lemma SizeDecides(s: Bytes, p: Progress, digest: Digest)
    requires ParseBlocks(s, p, digest).Some?
    ensures |s| >= 4
    ensures var w, rest := ReadLE(s[..4]), s[4..];
      var size := w % 0x8000_0000;
      if size == 0 then ParseBlocks(s, p, digest) == ParseSuffix(rest, p, digest)
      else
        && size <= p.info.maxBlockSize
        && ParseBlocks(s, p, digest) ==
           if w / 0x8000_0000 % 2 == 1 then ParseRaw(rest, size, p, digest) else ParsePacked(rest, size, p, digest)
  {
    hide ReadLE, ParseSuffix, ParseRaw, ParsePacked;
  }

  /** The block in front, and what it leaves to be parsed. */
  lemma FirstBlock(rest: Bytes, size: nat, raw: bool, p: Progress, digest: Digest)
    returns (b: FrameBlock, d: Bytes, more: Bytes)
    requires 0 < size <= p.info.maxBlockSize
    requires (if raw then ParseRaw(rest, size, p, digest) else ParsePacked(rest, size, p, digest)).Some?
    ensures BlockValid(b, p.info.maxBlockSize) && d == ContentOf(b, p.info.maxBlockSize)
    ensures rest == b.data + more && |b.data| == size && b.Raw? == raw
    ensures ParseBlocks(more, After(p, d), digest).Some?
    ensures (if raw then ParseRaw(rest, size, p, digest) else ParsePacked(rest, size, p, digest))
         == Some(d + ParseBlocks(more, After(p, d), digest).value)
  {
    hide ReadLE, ParseBlocks, DecodeBlock, ParseSuffix;
    more := rest[size..];
    if raw {
      b, d := Raw(rest[..size]), rest[..size];
    } else {
      b, d := Packed(rest[..size]), DecodeBlock(rest[..size], p.info.maxBlockSize).value;
    }
  }

  lemma {:induction false} ParsedBodyIsWritten(s: Bytes, p: Progress, digest: Digest)
    returns (bs: seq<FrameBlock>, flagged: bool)
    requires ParseBlocks(s, p, digest).Some?
    ensures forall b :: b in bs ==> BlockValid(b, p.info.maxBlockSize)
    ensures var content := Content(bs, p.info.maxBlockSize);
      && ParseBlocks(s, p, digest) == Some(content)
      && s == BodyBytes(bs, flagged, p.info, p.hashed + content, digest)
      && p.remaining == (if p.info.contentSize != 0 then |content| else 0)
      && (p.info.checksum ==> digest(p.hashed + content) < 0x1_0000_0000)
    decreases |s|
  {
    hide ReadLE, LittleEndian, ParseBlocks, ParseSuffix, ParseRaw, ParsePacked, EndMark, BlockValid, ContentOf,
      BlockBytes;
    SizeDecides(s, p, digest);
    var w, rest := ReadLE(s[..4]), s[4..];
    var size, raw := w % 0x8000_0000, w / 0x8000_0000 % 2 == 1;
    WordWritesBack(s[..4]);
    assert s == s[..4] + rest;
    if size == 0 {
      bs, flagged := [], raw;
      SuffixIsWritten(rest, p, digest);
      assert p.hashed + [] == p.hashed && [] + EndMark(raw) == EndMark(raw);
    } else {
      var b, d, more := FirstBlock(rest, size, raw, p, digest);
      var p' := After(p, d);
      var tail;
      tail, flagged := ParsedBodyIsWritten(more, p', digest);
      bs := [b] + tail;
      var content := Content(tail, p.info.maxBlockSize);
      assert bs[1..] == tail;
      assert p.hashed + (d + content) == (p.hashed + d) + content;
      FirstBlockIsWritten(s, rest, b, more);
      assert p.info.checksum ==> p'.hashed + content == p.hashed + (d + content);
      BodyIgnoresContent(tail, flagged, p.info, p'.hashed + content, p.hashed + (d + content), digest);
      assert BodyBytes(bs, flagged, p.info, p.hashed + (d + content), digest)
          == BlockBytes(b) + BodyBytes(tail, flagged, p.info, p.hashed + (d + content), digest);
    }
  }

  lemma FirstBlockIsWritten(s: Bytes, rest: Bytes, b: FrameBlock, more: Bytes)
    requires |s| >= 4 && s == s[..4] + rest && rest == b.data + more
    requires LittleEndian(|b.data| + if b.Raw? then 0x8000_0000 else 0, 4) == s[..4]
    ensures s == BlockBytes(b) + more
  {
    hide LittleEndian;
  }

  /** Without a checksum the content makes no difference to the body. */
  lemma BodyIgnoresContent(bs: seq<FrameBlock>, flagged: bool, info: Info, c: Bytes, d: Bytes, digest: Digest)
    requires info.checksum ==> c == d
    ensures BodyBytes(bs, flagged, info, c, digest) == BodyBytes(bs, flagged, info, d, digest)
  {}

  lemma SuffixIsWritten(s: Bytes, p: Progress, digest: Digest)
    requires ParseSuffix(s, p, digest).Some?
    ensures ParseSuffix(s, p, digest) == Some([]) && p.remaining == 0
    ensures s == if p.info.checksum then LittleEndian(digest(p.hashed), 4) else []
    ensures p.info.checksum ==> digest(p.hashed) < 0x1_0000_0000
  {
    if p.info.checksum {
      WritesBack(s);
      ReadIsBelow(s);
      assert Pow256(4) == 0x1_0000_0000;
    }
  }

  /** Whatever is taken for a frame is written like that, and has that content. */
  lemma FrameIsWritten(s: Bytes, digest: Digest) returns (f: Frame)
    requires FrameContent(s, digest).Some?
    ensures Sound(f) && Fitting(f, digest) && FrameBytes(f, digest) == s
    ensures FrameContent(s, digest) == Some(ContentOfFrame(f))
  {
    hide ParseBlocks, BlocksBytes, BodyBytes, BlockValid, Content, HeaderBytes, HasHeader, InfoOf, HeaderSize,
      LittleEndian, EndMark;
    var checksum, size, id := HeaderIsWritten(s, digest);
    var header := HeaderBytes(checksum, size, id, digest);
    WrittenHeader(checksum, size, id, digest);
    HeaderIsLocal(header, s, digest);
    var body := s[|header|..];
    assert s == header + body;
    var info := InfoOf(header);
    var p := Progress(info, [], info.contentSize);
    FrameWithHeader(header, body, digest);
    var bs, flagged := ParsedBodyIsWritten(body, p, digest);
    f := Frame(checksum, size, id, bs, flagged);
    var content := Content(bs, info.maxBlockSize);
    assert [] + content == content;
    BodyIs(header, bs, flagged, info, content, digest);
  }
}

/** The LZ4 frame format for independent blocks, as a decoder that has the whole frame before it. */
module Lz4Frame {
  import opened Wrappers
  import opened Integers
  import opened Lz4Format

  const MAGICNUMBER: nat := 0x184D2204
  const MIN_HEADER: nat := 7
  const MAX_HEADER: nat := 15
  const BLOCK_HEADER: nat := 4
  const BLOCK_UNCOMPRESSED: nat := 0x8000_0000

  /** The 32-bit checksum of a byte string; hashing piece by piece is hashing the concatenation. */
  type Digest = Bytes -> nat

  /** contentSize is 0 when the header gives none. */
  datatype Info = Info(independent: bool, checksum: bool, contentSize: nat, maxBlockSize: nat)

  /** How far decoding is: what was hashed and how much of the announced content is missing. */
  datatype Progress = Progress(info: Info, hashed: Bytes, remaining: int)

  // ----- The header -----

  function GetBlockSize(blockSizeID: nat): nat {
    if blockSizeID == 4 then 0x1_0000 else if blockSizeID == 5 then 0x4_0000
    else if blockSizeID == 6 then 0x10_0000 else 0x40_0000
  }

  function HeaderSize(flg: Byte): nat {
    if flg / 8 % 2 == 1 then MAX_HEADER else MIN_HEADER
  }

  predicate FlagsValid(flg: Byte) {
    flg % 4 == 0 && flg / 64 == 1 && flg / 16 % 2 == 0
  }

  predicate DescriptorValid(bd: Byte) {
    bd / 128 == 0 && bd / 16 % 8 >= 4 && bd % 16 == 0
  }

  predicate StartsFrame(s: Bytes)
    requires |s| >= 5
  {
    ReadLE(s[..4]) == MAGICNUMBER && FlagsValid(s[4])
  }

  predicate HeaderValid(s: Bytes, digest: Digest)
    requires |s| >= 5 && |s| >= HeaderSize(s[4])
  {
    var size := HeaderSize(s[4]);
    StartsFrame(s) && DescriptorValid(s[5]) && digest(s[4..size - 1]) / 256 % 256 == s[size - 1]
  }

  function InfoOf(s: Bytes): Info
    requires |s| >= 5 && |s| >= HeaderSize(s[4])
  {
    Info(s[4] / 32 % 2 == 1, s[4] / 4 % 2 == 1, if s[4] / 8 % 2 == 1 then ReadLE(s[6..14]) else 0,
         GetBlockSize(s[5] / 16 % 8))
  }

  /** A complete and valid header of a frame with independent blocks. */
  predicate HasHeader(s: Bytes, digest: Digest) {
    |s| >= 5 && |s| >= HeaderSize(s[4]) && HeaderValid(s, digest) && InfoOf(s).independent
  }

  // ----- The blocks -----

  function Prepend(d: Bytes, more: Option<Bytes>): Option<Bytes> {
    if more.Some? then Some(d + more.value) else None
  }

  function After(p: Progress, d: Bytes): Progress {
    p.(hashed := if p.info.checksum then p.hashed + d else p.hashed,
       remaining := if p.info.contentSize != 0 then p.remaining - |d| else p.remaining)
  }

  function DecodeBlock(data: Bytes, maxBlockSize: nat): Option<Bytes> {
    if maxBlockSize > 0 && !Readable(data) then None
    else match Decode(data, maxBlockSize)
      case Decoded(d) => Some(d)
      case Malformed(_) => None
  }

  /** From the size field of a block on. */
  function ParseBlocks(s: Bytes, p: Progress, digest: Digest): Option<Bytes>
    decreases |s|, 1
  {
    if |s| < BLOCK_HEADER then None
    else
      var word, rest := ReadLE(s[..BLOCK_HEADER]), s[BLOCK_HEADER..];
      var size := word % BLOCK_UNCOMPRESSED;
      if size == 0 then ParseSuffix(rest, p, digest)
      else if size > p.info.maxBlockSize then None
      else if word / BLOCK_UNCOMPRESSED % 2 == 1 then ParseRaw(rest, size, p, digest)
      else ParsePacked(rest, size, p, digest)
  }

  function ParseRaw(s: Bytes, size: nat, p: Progress, digest: Digest): Option<Bytes>
    decreases |s|, 2
  {
    if |s| < size then None else Prepend(s[..size], ParseBlocks(s[size..], After(p, s[..size]), digest))
  }

  function ParsePacked(s: Bytes, size: nat, p: Progress, digest: Digest): Option<Bytes>
    decreases |s|, 3
  {
    if |s| < size then None else ParseDecoded(s[..size], s[size..], p, digest)
  }

  function ParseDecoded(data: Bytes, s: Bytes, p: Progress, digest: Digest): Option<Bytes>
    decreases |s|, 2
  {
    match DecodeBlock(data, p.info.maxBlockSize)
    case None => None
    case Some(d) => Prepend(d, ParseBlocks(s, After(p, d), digest))
  }

  function ParseSuffix(s: Bytes, p: Progress, digest: Digest): Option<Bytes> {
    if p.remaining != 0 then None
    else if p.info.checksum then CheckSuffix(s, p, digest)
    else if s == [] then Some([]) else None
  }

  function CheckSuffix(s: Bytes, p: Progress, digest: Digest): Option<Bytes> {
    if |s| == 4 && ReadLE(s) == digest(p.hashed) then Some([]) else None
  }

  predicate GivesContentSize(s: Bytes)
    requires |s| >= 5
  {
    HeaderSize(s[4]) == MAX_HEADER
  }

  /** The remaining size a frame starts with. A header that gives no content size leaves it as it was. */
  function StartingSize(s: Bytes, leftover: int): int
    requires |s| >= 5 && |s| >= HeaderSize(s[4])
  {
    if GivesContentSize(s) then InfoOf(s).contentSize else leftover
  }

  /** The content of a byte string that is exactly one frame to a context whose remaining size is `leftover`. */
  function ParseFrame(s: Bytes, leftover: int, digest: Digest): Option<Bytes> {
    if !HasHeader(s, digest) then None
    else ParseBlocks(s[HeaderSize(s[4])..], Progress(InfoOf(s), [], StartingSize(s, leftover)), digest)
  }

  /** The content of a byte string that is exactly one valid frame. */
  function FrameContent(s: Bytes, digest: Digest): Option<Bytes> {
    ParseFrame(s, 0, digest)
  }

  /** A remaining size that no block changes never gets past the end of the blocks. */
  lemma {:induction false} StuckRemainderRefuses(s: Bytes, p: Progress, digest: Digest)
    requires p.info.contentSize == 0 && p.remaining != 0
    ensures ParseBlocks(s, p, digest).None?
    decreases |s|
  {
    hide ReadLE, DecodeBlock;
    if |s| >= BLOCK_HEADER {
      var word, rest := ReadLE(s[..BLOCK_HEADER]), s[BLOCK_HEADER..];
      var size := word % BLOCK_UNCOMPRESSED;
      if 0 < size <= |rest| {
        var data, decoded := rest[..size], DecodeBlock(rest[..size], p.info.maxBlockSize);
        StuckRemainderRefuses(rest[size..], After(p, data), digest);
        assert ParseRaw(rest, size, p, digest).None?;
        if decoded.Some? { StuckRemainderRefuses(rest[size..], After(p, decoded.value), digest); }
        assert ParseDecoded(data, rest[size..], p, digest).None?;
        assert ParsePacked(rest, size, p, digest).None?;
      }
    }
  }

  /** A context with a remaining size left over takes a valid frame exactly when its header gives a content
      size. */
  lemma LeftoverRefusesUnsizedFrames(s: Bytes, leftover: int, digest: Digest)
    ensures ParseFrame(s, leftover, digest) ==
      if leftover == 0 || (|s| >= 5 && GivesContentSize(s)) then FrameContent(s, digest) else None
  {
    hide ParseBlocks, ReadLE;
    if HasHeader(s, digest) && leftover != 0 && !GivesContentSize(s) {
      StuckRemainderRefuses(s[HeaderSize(s[4])..], Progress(InfoOf(s), [], leftover), digest);
    }
  }

  /** The smallest frame: empty content, no content size. */
  const EMPTY_FRAME: Bytes := [0x04, 0x22, 0x4D, 0x18, 0x60, 0x40, 0x00, 0x00, 0x00, 0x00, 0x00]

  /** It is valid under a digest that is always 0, and refused after a frame that was one byte short. */
  lemma EmptyFrameIsRefusedAfterALeftover()
    ensures FrameContent(EMPTY_FRAME, _ => 0) == Some([])
    ensures ParseFrame(EMPTY_FRAME, 1, _ => 0).None?
  {
    hide ReadLE, ParseRaw, ParsePacked;
    var s := EMPTY_FRAME;
    assert s[..4] == [0x04, 0x22, 0x4D, 0x18] && s[7..][..4] == [0, 0, 0, 0] && s[7..][4..] == [];
    ReadsFour(0x04, 0x22, 0x4D, 0x18);
    ReadsFour(0, 0, 0, 0);
    LeftoverRefusesUnsizedFrames(s, 1, _ => 0);
  }

  lemma ReadsFour(a: Byte, b: Byte, c: Byte, d: Byte)
    ensures ReadLE([a, b, c, d]) == a + 0x100 * b + 0x1_0000 * c + 0x100_0000 * d
  {
    assert [a, b, c, d][1..] == [b, c, d] && [b, c, d][1..] == [c, d] && [c, d][1..] == [d] && [d][1..] == [];
    assert ReadLE([d]) == d;
    assert ReadLE([c, d]) == c + 0x100 * d;
  }

  /** A header is valid by its own bytes. */
  lemma HeaderIsLocal(s: Bytes, longer: Bytes, digest: Digest)
    requires s <= longer && |s| >= 5 && |s| >= HeaderSize(s[4])
    ensures HeaderSize(s[4]) == HeaderSize(longer[4]) && HeaderValid(s, digest) == HeaderValid(longer, digest)
    ensures InfoOf(s) == InfoOf(longer) && HasHeader(s, digest) == HasHeader(longer, digest)
  {
    hide ReadLE;
    var size := HeaderSize(s[4]);
    assert s[..4] == longer[..4] && s[4..size - 1] == longer[4..size - 1];
    if size == MAX_HEADER { assert s[6..14] == longer[6..14]; }
  }
}

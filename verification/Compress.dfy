/** The node's own compression: a 32-bit little-endian size in front of one LZ4 block. */
module Compress {
  import opened Lz4Format
  import opened Integers
  import Lz4Parse
  import Lz4Search
  import Lz4Compressor
  import Lz4Decoder

  const INT32_LIMIT: nat := 0x8000_0000
  const UINT32_LIMIT: nat := 0x1_0000_0000

  /** The conversion of a size_t argument to the int parameter of the codec. */
  function ToInt32(n: nat): (r: int)
    ensures -0x8000_0000 <= r < 0x8000_0000 && (n - r) % 0x1_0000_0000 == 0
  {
    if n % UINT32_LIMIT < INT32_LIMIT then n % UINT32_LIMIT else n % UINT32_LIMIT - UINT32_LIMIT
  }

  lemma SizeReadsBack(v: nat)
    requires v < UINT32_LIMIT
    ensures ReadLE(LittleEndian(v, 4)) == v
  {
    assert Pow256(4) == UINT32_LIMIT;
    ReadsBack(v, 4);
  }

  /** What compress returns: nothing for an empty value or a size the codec refuses, and otherwise
      the size followed by a compression of as many bytes as the int conversion left. */
  ghost predicate Packed(value: Bytes, r: Bytes) {
    var size := ToInt32(|value|);
    if value == [] || !(0 <= size <= Lz4Parse.MAX_INPUT_SIZE) then r == []
    else
      && |r| > 4 && |r| <= 4 + Lz4Parse.CompressBound(size)
      && r[..4] == LittleEndian(size, 4)
      && exists b: Block :: Lz4Parse.CompressionOf(value[..size], b, r[4..])
  }

  method Compress(value: Bytes, hash4: Lz4Search.Hash, hash5: Lz4Search.Hash) returns (r: Bytes)
    requires Lz4Compressor.Buckets(hash4, Lz4Compressor.U16_BUCKETS)
    requires Lz4Compressor.Buckets(hash5, Lz4Compressor.U32_BUCKETS)
    ensures Packed(value, r)
    ensures 14 <= |value| <= 0x7E00_0000 && (forall i :: 0 <= i < |value| ==> value[i] == value[0]) ==>
      |r| == 14 + if |value| < 25 then 0 else (|value| - 25) / 255 + 1
  {
    hide Lz4Parse.CompressionOf, Lz4Search.AllMaximal, Lz4Search.FirstFound;
    if value == [] { return []; }
    var size := ToInt32(|value|);
    if !(0 <= size <= Lz4Parse.MAX_INPUT_SIZE) { return []; }
    var dst := new Byte[Lz4Parse.CompressBound(size)];
    var n, b := Lz4Compressor.CompressDefault(value[..size], dst, hash4, hash5);
    r := LittleEndian(|value| % UINT32_LIMIT, 4) + dst[..n];
    assert r[4..] == dst[..n];
  }

  /** The bytes behind the size prefix that the int conversion of their number leaves to the decoder. */
  function BlockOf(value: Bytes): (block: Bytes)
    requires |value| > 4
    ensures |value| < INT32_LIMIT + 4 ==> block == value[4..]
  {
    var size := ToInt32(|value| - 4);
    if size > 0 then value[4..4 + size] else []
  }

  /** Whether that block decodes into a buffer of the stored size. A size beyond the int range turns into a
      negative capacity, which the decoder refuses, as it does an input size that is not positive, and a lone
      token that announces a length byte. */
  predicate Unpacks(value: Bytes)
    requires |value| > 4
  {
    var size, block := ReadLE(value[..4]), BlockOf(value);
    && size < INT32_LIMIT && block != []
    && (size > 0 ==> |block| > 1 || block[0] / 16 != RUN_MASK)
    && Decode(block, size).Decoded?
  }

  /** decompress, of any string: on failure the caller gets the output buffer as the decoder left it. */
  method Decompress(value: Bytes) returns (r: Bytes)
    ensures |value| <= 4 ==> r == []
    ensures |value| > 4 && Unpacks(value) ==> Decode(BlockOf(value), ReadLE(value[..4])) == Decoded(r)
    ensures |value| > 4 && !Unpacks(value) ==> |r| == ReadLE(value[..4])
  {
    if |value| <= 4 { return []; }
    var size, block := ReadLE(value[..4]), BlockOf(value);
    var dst := new Byte[size](_ => 0);
    if size >= INT32_LIMIT || block == [] { return dst[..]; }
    if size > 0 && |block| == 1 && block[0] / 16 == RUN_MASK { return dst[..]; }
    var n := Lz4Decoder.DecompressSafe(block, dst);
    if n < 0 { return dst[..]; }
    r := dst[..n];
  }

  lemma PackedUnpacks(value: Bytes, r: Bytes)
    requires Packed(value, r) && r != []
    ensures |r| > 4 && |r| < INT32_LIMIT + 4 && Unpacks(r)
    ensures 0 <= ToInt32(|value|) <= |value| && Decode(BlockOf(r), ReadLE(r[..4])) == Decoded(value[..ToInt32(|value|)])
  {
    hide Lz4Parse.CompressionOf, Decode, Readable;
    var size := ToInt32(|value|);
    SizeReadsBack(size);
    var b: Block :| Lz4Parse.CompressionOf(value[..size], b, r[4..]);
    Lz4Parse.CompressionDecodes(value[..size], b, r[4..]);
    ReadableStart(r[4..], size);
  }

  lemma ReadableStart(block: Bytes, size: nat)
    requires block != [] && (size > 0 ==> Readable(block))
    ensures size > 0 ==> |block| > 1 || block[0] / 16 != RUN_MASK
  {}

  /** The round trip is the identity on exactly the values up to LZ4_MAX_INPUT_SIZE, whatever the
      hash functions are. */
  method RoundTrip(value: Bytes, hash4: Lz4Search.Hash, hash5: Lz4Search.Hash) returns (w: Bytes)
    requires Lz4Compressor.Buckets(hash4, Lz4Compressor.U16_BUCKETS)
    requires Lz4Compressor.Buckets(hash5, Lz4Compressor.U32_BUCKETS)
    ensures w == value <==> |value| <= 0x7E00_0000
  {
    hide Decode, Unpacks, Packed, ToInt32, BlockOf, ReadLE;
    var c := Compress(value, hash4, hash5);
    PackedOrNot(value, c);
    if c != [] {
      PackedUnpacks(value, c);
      assert |value| <= 0x7E00_0000 ==> value[..ToInt32(|value|)] == value;
    }
    w := Decompress(c);
  }

  lemma PackedOrNot(value: Bytes, r: Bytes)
    requires Packed(value, r)
    ensures r == [] ==> value == [] || |value| > 0x7E00_0000
    ensures r != [] ==> ToInt32(|value|) <= 0x7E00_0000
    ensures |value| <= 0x7E00_0000 ==> ToInt32(|value|) == |value|
  {
    hide Lz4Parse.CompressionOf;
  }
}

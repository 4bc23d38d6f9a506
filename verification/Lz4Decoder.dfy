/** LZ4_decompress_safe: the decoder that copies in 8-byte strides, in place, and the proof that
    it computes exactly what the byte-by-byte decoder of the format describes. */
module Lz4Decoder {
  import opened Lz4Format
  import opened Lz4Memory

  // ----- 8-byte copies -----

  /** One 8-byte memcpy inside the output buffer; the source lies entirely before the target. */
  method Copy8(dst: array<Byte>, d: nat, s: nat)
    requires s + 8 <= d && d + 8 <= dst.Length
    modifies dst
    ensures forall k :: d <= k < d + 8 ==> dst[k] == old(dst[k - (d - s)])
    ensures forall k :: 0 <= k < dst.Length && !(d <= k < d + 8) ==> dst[k] == old(dst[k])
  {
    forall i | 0 <= i < 8 { dst[d + i] := dst[s + i]; }
  }

  /** LZ4_wildCopy inside the output buffer: writes up to 7 bytes beyond `e`. */
  method WildCopyWithin(dst: array<Byte>, d0: nat, s0: nat, e: nat) returns (top: nat)
    requires s0 + 8 <= d0 && d0 + 8 <= dst.Length && e + 7 <= dst.Length
    modifies dst
    ensures d0 < top <= dst.Length && e <= top
    ensures forall k :: d0 <= k < top ==> dst[k] == dst[k - (d0 - s0)]
    ensures forall k :: 0 <= k < d0 ==> dst[k] == old(dst[k])
  {
    var d, s := d0, s0;
    Copy8(dst, d, s);
    d, s := d + 8, s + 8;
    while d < e
      invariant d0 < d <= dst.Length && s == d - (d0 - s0)
      invariant forall k :: d0 <= k < d ==> dst[k] == dst[k - (d0 - s0)]
      invariant forall k :: 0 <= k < d0 ==> dst[k] == old(dst[k])
      decreases e - d
    {
      Copy8(dst, d, s);
      d, s := d + 8, s + 8;
    }
    top := d;
  }

  // ----- Why copying in strides copies a short-period match correctly -----

  const DEC32: seq<int> := [0, 1, 2, 1, 4, 4, 4, 4]
  const DEC64: seq<int> := [0, 0, 0, -1, 0, 1, 2, 3]

  /** The distance between target and source once the first 8 bytes have been produced. */
  function Stride(offset: nat): int {
    if offset < 8 then 8 + offset - DEC32[offset] + DEC64[offset] else offset
  }

  /** How many periods of the match the stride spans. */
  function Periods(offset: nat): nat
    requires offset > 0
  {
    if offset < 8 then [0, 8, 4, 3, 2, 2, 2, 2][offset] else 1
  }

  /** The two tables turn a distance below 8 into a multiple of itself that is at least 8 and
      whose first source byte is already part of the repeating pattern. */
  lemma StrideIsPeriod(offset: nat)
    ensures Stride(offset) >= 8
    ensures offset > 0 ==> Periods(offset) >= 1 && Stride(offset) <= 8 + offset
    ensures offset > 0 ==> Stride(offset) - offset == (Periods(offset) - 1) * offset
    ensures offset == 0 ==> Stride(offset) == 8
  {}

  /** Within a repeating pattern, bytes `n` periods apart agree. */
  lemma {:induction false} PeriodsAgree(s: Bytes, from: nat, offset: nat, j: nat, n: nat)
    requires 0 < offset <= from && from - offset <= j && j + n * offset < |s|
    requires Continues(s, from, j + n * offset + 1, offset)
    ensures s[j] == s[j + n * offset]
    decreases n
  {
    if n > 0 {
      assert j + n * offset - offset == j + (n - 1) * offset >= j;
      PeriodsAgree(s, from, offset, j, n - 1);
    }
  }

  lemma {:induction false} StridedCopyContinues(s: Bytes, from: nat, upto: nat, offset: nat)
    requires offset <= from && from + 8 <= upto <= |s|
    requires Continues(s, from, from + 8, offset)
    requires Stride(offset) <= from + 8
    requires forall k :: from + 8 <= k < upto ==> s[k] == s[k - Stride(offset)]
    ensures Continues(s, from, upto, offset)
    decreases upto
  {
    StrideIsPeriod(offset);
    if upto > from + 8 {
      StridedCopyContinues(s, from, upto - 1, offset);
      var k := upto - 1;
      assert s[k] == s[k - Stride(offset)];
      if offset > 0 {
        PeriodsAgree(s, from, offset, k - Stride(offset), Periods(offset) - 1);
      }
    }
  }

  // ----- The match copy -----

  /** `s[from..]` repeats at distance `stride`. */
  ghost predicate Strided(s: Bytes, from: nat, stride: int)
    requires 0 < stride <= from
  {
    forall k :: from <= k < |s| ==> s[k] == s[k - stride]
  }

  /** What the table-driven copy of the first 8 bytes leaves in the buffer. */
  ghost predicate FixedUp(s: Bytes, op: nat, offset: nat) {
    && offset < 8 && offset <= op && op + 8 <= |s|
    && (offset == 0 ==> s[op] == 0)
    && (forall i :: op <= i < op + 4 ==> s[i] == s[i - offset])
    && (forall i :: op + 4 <= i < op + 8 ==> s[i] == s[i - 4 - offset + DEC32[offset]])
  }

  lemma FixUpContinues(s: Bytes, op: nat, offset: nat)
    requires FixedUp(s, op, offset)
    requires offset == 0 ==> forall i :: op <= i < op + 4 ==> s[i] == 0
    ensures Continues(s, op, op + 8, offset)
  {
    assert DEC32[offset] - offset <= 0 && (offset == 1 || offset == 2 ==> DEC32[offset] == offset);
    assert s[op + 4] == s[op - offset + DEC32[offset]];
    assert s[op + 5] == s[op + 1 - offset + DEC32[offset]];
    assert s[op + 6] == s[op + 2 - offset + DEC32[offset]];
    assert s[op + 7] == s[op + 3 - offset + DEC32[offset]];
    assert s[op] == s[op - offset] && s[op + 1] == s[op + 1 - offset];
    assert s[op + 2] == s[op + 2 - offset] && s[op + 3] == s[op + 3 - offset];
  }

  /** Four single-byte copies, whose source may run into their target. */
  method CopyBytes4(dst: array<Byte>, d: nat, s: nat)
    requires s <= d && d + 4 <= dst.Length
    modifies dst
    ensures forall k :: d <= k < d + 4 ==> dst[k] == dst[k - (d - s)]
    ensures forall k :: 0 <= k < d ==> dst[k] == old(dst[k])
    ensures s == d ==> forall k :: d <= k < d + 4 ==> dst[k] == old(dst[k])
  {
    dst[d] := dst[s];
    dst[d + 1] := dst[s + 1];
    dst[d + 2] := dst[s + 2];
    dst[d + 3] := dst[s + 3];
  }

  /** One 4-byte memcpy. */
  method Copy4(dst: array<Byte>, d: nat, s: nat)
    requires s + 4 <= d && d + 4 <= dst.Length
    modifies dst
    ensures forall k :: d <= k < d + 4 ==> dst[k] == old(dst[k - (d - s)])
    ensures forall k :: 0 <= k < d ==> dst[k] == old(dst[k])
  {
    forall i | 0 <= i < 4 { dst[d + i] := dst[s + i]; }
  }

  /** The first 8 bytes of a match at a distance below 8. */
  method CopyShort8(dst: array<Byte>, op: nat, offset: nat) returns (m: int)
    requires offset < 8 && offset <= op && op + 8 <= dst.Length
    requires offset == 0 ==> forall i :: op <= i < op + 4 ==> dst[i] == 0
    modifies dst
    ensures m == op + 8 - Stride(offset)
    ensures FixedUp(dst[..], op, offset)
    ensures forall k :: 0 <= k < op ==> dst[k] == old(dst[k])
    ensures offset == 0 ==> forall i :: op <= i < op + 4 ==> dst[i] == 0
  {
    m := op - offset;
    CopyBytes4(dst, op, m);
    m := m + DEC32[offset];
    Copy4(dst, op + 4, m);
    m := m - DEC64[offset];
  }

  /** The first 8 bytes of a match, and where copying continues from. */
  method CopyFirst8(dst: array<Byte>, op: nat, offset: nat) returns (m: int)
    requires offset <= op && op + 8 <= dst.Length
    requires offset == 0 ==> forall i :: op <= i < op + 4 ==> dst[i] == 0
    modifies dst
    ensures m == op + 8 - Stride(offset)
    ensures Continues(dst[..], op, op + 8, offset)
    ensures dst[..op] == old(dst[..op])
  {
    if offset < 8 {
      m := CopyShort8(dst, op, offset);
      FixUpContinues(dst[..], op, offset);
    } else {
      m := op - offset;
      Copy8(dst, op, m);
      m := m + 8;
    }
  }

  /** The rest of a match that ends among the last 12 bytes: strides up to 7 bytes before the
      end of the buffer, then single bytes. */
  method CopyNearEnd(dst: array<Byte>, op0: nat, m0: nat, cpy: nat) returns (op: nat)
    requires m0 + 8 <= op0 <= dst.Length && cpy + LASTLITERALS <= dst.Length
    modifies dst
    ensures op0 <= op <= dst.Length && cpy <= op
    ensures Strided(dst[..op], op0, op0 - m0)
    ensures dst[..op0] == old(dst[..op0])
  {
    op := op0;
    var m := m0;
    var oCopyLimit := dst.Length - (WILDCOPYLENGTH - 1);
    if op < oCopyLimit {
      var _ := WildCopyWithin(dst, op, m, oCopyLimit);
      m := m + (oCopyLimit - op);
      op := oCopyLimit;
    }
    while op < cpy
      invariant op0 <= op <= dst.Length && m == op - (op0 - m0)
      invariant forall k :: op0 <= k < op ==> dst[k] == dst[k - (op0 - m0)]
      invariant forall k :: 0 <= k < op0 ==> dst[k] == old(dst[k])
    {
      dst[op] := dst[m];
      op, m := op + 1, m + 1;
    }
  }

  /** The rest of a match that ends well inside the buffer: strides only. */
  method CopyFar(dst: array<Byte>, op0: nat, m0: nat, length: nat) returns (op: nat)
    requires 8 <= op0 && m0 + 8 <= op0 && op0 - 8 + length + 12 <= dst.Length && length >= MINMATCH
    modifies dst
    ensures op0 <= op <= dst.Length && op0 - 8 + length <= op
    ensures Strided(dst[..op], op0, op0 - m0)
    ensures dst[..op0] == old(dst[..op0])
  {
    Copy8(dst, op0, m0);
    op := op0 + 8;
    if length > 16 {
      op := WildCopyWithin(dst, op0 + 8, m0 + 8, op0 - 8 + length);
    }
  }

  /** Copies a match behind the cursor. Refused when it would end among the last 5 bytes of the
      output buffer. */
  method CopyMatchStrided(dst: array<Byte>, op0: nat, offset: nat, length: nat) returns (ok: bool)
    requires offset <= op0 && op0 + MFLIMIT <= dst.Length && length >= MINMATCH
    requires offset == 0 ==> forall i :: op0 <= i < op0 + 4 ==> dst[i] == 0
    modifies dst
    ensures ok <==> op0 + length + LASTLITERALS <= dst.Length
    ensures ok ==> dst[..op0 + length] == CopyMatch(old(dst[..op0]), offset, length)
  {
    StrideIsPeriod(offset);
    var cpy, op := op0 + length, op0 + 8;
    var m := CopyFirst8(dst, op0, offset);
    ghost var first := dst[..op];
    if cpy > dst.Length - 12 {
      if cpy > dst.Length - LASTLITERALS { return false; }
      op := CopyNearEnd(dst, op, m, cpy);
    } else {
      op := CopyFar(dst, op, m, length);
    }
    assert first[..op0] == old(dst[..op0]);
    assert dst[..op][..op0 + 8] == first;
    FinishMatch(dst[..op], first, op0, cpy, offset);
    assert dst[..op][..cpy] == dst[..cpy];
    ok := true;
  }

  lemma FinishMatch(s: Bytes, first: Bytes, op0: nat, cpy: nat, offset: nat)
    requires offset <= op0 && op0 + 8 == |first| <= |s| && op0 <= cpy <= |s|
    requires s[..op0 + 8] == first && Continues(first, op0, op0 + 8, offset)
    requires Stride(offset) <= op0 + 8
    requires Stride(offset) > 0 && Strided(s, op0 + 8, Stride(offset))
    ensures s[..cpy] == CopyMatch(first[..op0], offset, cpy - op0)
  {
    assert Continues(s, op0, op0 + 8, offset) by {
      forall k | op0 <= k < op0 + 8 ensures s[k] == if offset == 0 then 0 else s[k - offset] {
        assert s[k] == first[k];
        if offset > 0 { assert s[k - offset] == first[k - offset]; }
      }
    }
    StridedCopyContinues(s, op0, |s|, offset);
    ContinuesIsCopyMatch(s, op0, cpy, offset);
    assert s[..op0] == first[..op0];
  }

  // ----- Length bytes -----

  method ReadLiteralLength(src: Bytes, ip0: nat) returns (ip: nat, length: nat)
    requires ip0 < |src|
    ensures ip0 < ip <= |src| && (length, src[ip..]) == LiteralLength(src[ip0..], RUN_MASK)
  {
    ip, length := ip0, RUN_MASK;
    while true
      invariant ip0 <= ip < |src|
      invariant LiteralLength(src[ip..], length) == LiteralLength(src[ip0..], RUN_MASK)
      decreases |src| - ip
    {
      var s := src[ip];
      assert src[ip..][1..] == src[ip + 1..];
      ip, length := ip + 1, length + s;
      if !(ip + RUN_MASK < |src| && s == 255) { return; }
    }
  }

  method ReadMatchLength(src: Bytes, ip0: nat) returns (ok: bool, ip: nat, length: nat)
    requires ip0 < |src|
    ensures ip0 < ip <= |src|
    ensures MatchLength(src[ip0..], ML_MASK) == if ok then MatchLen(length, src[ip..]) else Short(|src| - ip)
  {
    ip, length := ip0, ML_MASK;
    while true
      invariant ip0 <= ip < |src|
      invariant MatchLength(src[ip..], length) == MatchLength(src[ip0..], ML_MASK)
      decreases |src| - ip
    {
      var s := src[ip];
      assert src[ip..][1..] == src[ip + 1..];
      ip := ip + 1;
      if ip + LASTLITERALS > |src| { return false, ip, length; }
      length := length + s;
      if s != 255 { return true, ip, length; }
    }
  }

  // ----- The decoder -----

  /** The two outcomes of the decoder as its C result. */
  function ResultCode(d: Decoded, inputSize: nat): int {
    match d
    case Decoded(out) => |out|
    case Malformed(left) => -(inputSize - left) - 1
  }

  /** Stores the offset at the cursor, so that a zero offset reads zeros. */
  method WriteLE32(dst: array<Byte>, op: nat, v: nat)
    requires op + 4 <= dst.Length && v < 0x1_0000
    modifies dst
    ensures dst[..op] == old(dst[..op])
    ensures v == 0 ==> forall i :: op <= i < op + 4 ==> dst[i] == 0
  {
    dst[op], dst[op + 1], dst[op + 2], dst[op + 3] := v % 256, v / 256, 0, 0;
  }

  /** Offset and match length; the offset is also stored at the output cursor. */
  method ReadMatchHeader(src: Bytes, ip0: nat, low: nat, dst: array<Byte>, op: nat)
    returns (ok: bool, ip: nat, offset: nat, code: nat)
    requires ip0 + 2 + 1 + LASTLITERALS <= |src| && low < 16 && op + MFLIMIT <= dst.Length
    modifies dst
    ensures ip0 < ip <= |src|
    ensures dst[..op] == old(dst[..op])
    ensures ReadMatch(src[ip0..], low, op)
         == if ok then MatchHeader(offset, code, src[ip..]) else BadHeader(|src| - ip)
    ensures ok && offset == 0 ==> forall i :: op <= i < op + 4 ==> dst[i] == 0
  {
    ip, offset, code := ip0 + 2, ReadLE16(src[ip0], src[ip0 + 1]), low;
    assert src[ip0..][2..] == src[ip..];
    if offset > op { return false, ip, offset, code; }
    WriteLE32(dst, op, offset);
    ok := true;
    if low == ML_MASK { ok, ip, code := ReadMatchLength(src, ip); }
  }

  /** One match: offset, length and copy. On success `ip` and `op` are the new cursors. */
  method DecodeOneMatch(src: Bytes, ip0: nat, low: nat, dst: array<Byte>, op0: nat)
    returns (ok: bool, ip: nat, op: nat)
    requires ip0 + 2 + 1 + LASTLITERALS <= |src| && low < 16 && op0 + MFLIMIT <= dst.Length
    modifies dst
    ensures ip0 < ip <= |src| && op <= dst.Length
    ensures ok ==> ip + LASTLITERALS <= |src|
    ensures StepMatch(src[ip0..], low, old(dst[..op0]), dst.Length)
         == if ok then Copied(src[ip..], dst[..op]) else BadMatch(|src| - ip)
  {
    var offset, code;
    op := op0;
    ok, ip, offset, code := ReadMatchHeader(src, ip0, low, dst, op0);
    if ok {
      ok := CopyMatchStrided(dst, op, offset, code + MINMATCH);
      if ok { op := op + code + MINMATCH; }
    }
  }

  /** A token and the length bytes of its literals. */
  method ReadTokenBytes(src: Bytes, ip0: nat) returns (low: nat, ip: nat, length: nat)
    requires ip0 <= |src| && Readable(src[ip0..])
    ensures ip0 < ip <= |src| && low == src[ip0] % 16
    ensures ReadToken(src[ip0..]) == (length, src[ip..])
  {
    var token := src[ip0];
    ip, low, length := ip0 + 1, token % 16, token / 16;
    assert src[ip0..][1..] == src[ip..];
    if length == RUN_MASK { ip, length := ReadLiteralLength(src, ip); }
  }

  datatype Progress = Failure | End | Match

  /** One token with its literals. */
  method DecodeLiterals(src: Bytes, ip0: nat, dst: array<Byte>, op0: nat)
    returns (p: Progress, low: nat, ip: nat, op: nat)
    requires ip0 <= |src| && Readable(src[ip0..]) && op0 <= dst.Length
    modifies dst
    ensures ip0 < ip <= |src| && op <= dst.Length && low < 16
    ensures p.Match? ==> ip + 2 + 1 + LASTLITERALS <= |src| && op + MFLIMIT <= dst.Length
    ensures low == src[ip0] % 16
    ensures StepLiterals(src[ip0..], old(dst[..op0]), dst.Length) ==
      match p
      case Failure => BadLiterals(|src| - ip)
      case End => Finished(dst[..op])
      case Match => AtMatch(src[ip..], dst[..op])
  {
    hide ReadToken, Readable;
    var length;
    op := op0;
    low, ip, length := ReadTokenBytes(src, ip0);
    if op + length + MFLIMIT > dst.Length || ip + length + (2 + 1 + LASTLITERALS) > |src| {
      if ip + length != |src| || op + length > dst.Length { return Failure, low, ip, op; }
      MemcpyFrom(src, ip, dst, op, length);
      return End, low, ip + length, op + length;
    }
    WildCopyFrom(src, ip, dst, op, length);
    ghost var r2 := src[ip..];
    assert r2[length..] == src[ip + length..];
    assert r2[..length] == src[ip..ip + length];
    return Match, low, ip + length, op + length;
  }

  /** LZ4_decompress_safe. No index in this module leaves either buffer, and the result is that
      of the byte-by-byte decoder, error position included. */
  method DecompressSafe(src: Bytes, dst: array<Byte>) returns (r: int)
    requires dst.Length > 0 ==> Readable(src)
    modifies dst
    ensures r == ResultCode(Decode(src, dst.Length), |src|)
    ensures r >= 0 ==> r <= dst.Length && Decode(src, dst.Length) == Decoded(dst[..r])
  {
    if dst.Length == 0 {
      return if |src| == 1 && src[0] == 0 then 0 else -1;
    }
    var ip: nat, op: nat := 0, 0;
    assert src[0..] == src && dst[..0] == [];
    while true
      invariant ip <= |src| && op <= dst.Length && Readable(src[ip..])
      invariant DecodeRest(src[ip..], dst[..op], dst.Length) == Decode(src, dst.Length)
      decreases |src| - ip
    {
      var p, low, ok;
      p, low, ip, op := DecodeLiterals(src, ip, dst, op);
      if p.Failure? { return -1 - ip; }
      if p.End? { return op; }
      ok, ip, op := DecodeOneMatch(src, ip, low, dst, op);
      if !ok { return -1 - ip; }
    }
  }
}

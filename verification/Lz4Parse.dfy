/** What the compressor has emitted so far, and what each further sequence adds to it. */
module Lz4Parse {
  import opened Lz4Format
  import Lz4Grammar

  const MAX_DISTANCE: nat := 0xFFFF
  const MAX_INPUT_SIZE: nat := 0x7E00_0000

  /** LZ4_COMPRESSBOUND */
  function CompressBound(n: nat): nat {
    if n > MAX_INPUT_SIZE then 0 else n + n / 255 + 16
  }

  function EncodeSequences(ss: seq<Sequence>): Bytes
    requires LongMatches(ss)
    decreases |ss|
  {
    if ss == [] then [] else EncodeSequence(ss[0]) + EncodeSequences(ss[1..])
  }

  /** A match the compressor may emit after `produced` bytes of an input of `n` bytes. */
  ghost predicate Genuine(s: Sequence, produced: nat, n: nat) {
    var here := produced + |s.lits|;
    && s.len >= MINMATCH
    && 1 <= s.offset <= MAX_DISTANCE && s.offset <= here
    && here + MFLIMIT <= n && here + s.len + LASTLITERALS <= n
  }

  ghost predicate AllGenuine(ss: seq<Sequence>, produced: nat, n: nat)
    decreases |ss|
  {
    ss != [] ==> Genuine(ss[0], produced, n) && AllGenuine(ss[1..], produced + |ss[0].lits| + ss[0].len, n)
  }

  lemma {:induction false} GenuineAreLong(ss: seq<Sequence>, produced: nat, n: nat)
    requires AllGenuine(ss, produced, n)
    ensures LongMatches(ss)
    decreases |ss|
  {
    if ss != [] { GenuineAreLong(ss[1..], produced + |ss[0].lits| + ss[0].len, n); }
  }

  // ----- Appending one sequence -----

  lemma {:induction false} ExpandAppend(out: Bytes, ss: seq<Sequence>, s: Sequence)
    ensures Expand(out, ss + [s]) == Apply(Expand(out, ss), s)
    decreases |ss|
  {
    hide Apply;
    if ss == [] {
      assert ss + [s] == [s] && [s][1..] == [];
    } else {
      assert (ss + [s])[1..] == ss[1..] + [s];
      ExpandAppend(Apply(out, ss[0]), ss[1..], s);
    }
  }

  lemma {:induction false} GenuineAppend(ss: seq<Sequence>, s: Sequence, out: Bytes, n: nat)
    requires AllGenuine(ss, |out|, n) && Genuine(s, |Expand(out, ss)|, n)
    ensures AllGenuine(ss + [s], |out|, n)
    decreases |ss|
  {
    hide Apply, Genuine;
    if ss == [] {
      assert ss + [s] == [s] && [s][1..] == [];
    } else {
      assert (ss + [s])[1..] == ss[1..] + [s];
      GenuineAppend(ss[1..], s, Apply(out, ss[0]), n);
    }
  }

  lemma {:induction false} EncodeAppend(ss: seq<Sequence>, s: Sequence)
    requires LongMatches(ss) && s.len >= MINMATCH
    ensures LongMatches(ss + [s]) && EncodeSequences(ss + [s]) == EncodeSequences(ss) + EncodeSequence(s)
    decreases |ss|
  {
    hide EncodeSequence;
    if ss == [] {
      assert ss + [s] == [s] && [s][1..] == [];
    } else {
      assert (ss + [s])[1..] == ss[1..] + [s];
      EncodeAppend(ss[1..], s);
    }
  }

  lemma {:induction false} EncodeAllSplits(ss: seq<Sequence>, last: Bytes, spare: nat)
    requires LongMatches(ss) && spare < 16
    ensures EncodeAll(ss, last, spare) == EncodeSequences(ss) + EncodeLast(last, spare)
    decreases |ss|
  {
    hide EncodeSequence, EncodeLast;
    if ss != [] { EncodeAllSplits(ss[1..], last, spare); }
  }

  // ----- How much room the encoding takes -----

  lemma {:induction false} ExtensionSize(n: nat)
    ensures |Extension(n)| == n / 255 + 1
    decreases n
  {
    if n >= 255 { ExtensionSize(n - 255); }
  }

  lemma LengthBytesSize(n: nat)
    ensures n < 15 ==> |LengthBytes(n)| == 0
    ensures n >= 15 ==> |LengthBytes(n)| == (n - 15) / 255 + 1 && 255 * |LengthBytes(n)| <= n + 240
  {
    if n >= 15 { ExtensionSize(n - 15); }
  }

  /** Every genuine sequence takes at most 256/255 of the input it stands for. */
  lemma SequenceSize(s: Sequence)
    requires s.len >= MINMATCH
    ensures 255 * |EncodeSequence(s)| <= 256 * (|s.lits| + s.len)
  {
    LengthBytesSize(|s.lits|);
    LengthBytesSize(s.len - MINMATCH);
    assert |EncodeSequence(s)| == 3 + |LengthBytes(|s.lits|)| + |s.lits| + |LengthBytes(s.len - MINMATCH)|;
  }

  lemma LastSize(last: Bytes)
    ensures 255 * |EncodeLast(last, 0)| <= 256 * |last| + 495
  {
    LengthBytesSize(|last|);
    assert |EncodeLast(last, 0)| == 1 + |LengthBytes(|last|)| + |last|;
  }

  /** How many bytes a length takes beyond its half of the token. */
  function More(n: nat): nat {
    if n < 15 then 0 else (n - 15) / 255 + 1
  }

  lemma {:induction false} ExtensionLayout(n: nat)
    ensures |Extension(n)| == n / 255 + 1 && Extension(n)[n / 255] == n % 255
    ensures forall i: nat :: i < n / 255 ==> Extension(n)[i] == 255
    decreases n
  {
    if n >= 255 { ExtensionLayout(n - 255); }
  }

  lemma LengthLayout(n: nat)
    ensures |LengthBytes(n)| == More(n)
    ensures n >= 15 ==> LengthBytes(n)[More(n) - 1] == (n - 15) % 255
    ensures forall i: nat :: i + 1 < More(n) ==> LengthBytes(n)[i] == 255
  {
    if n >= 15 { ExtensionLayout(n - 15); }
  }

  /** The bytes of a sequence: the token with the number of literals in its high half and the match length less
      4 in its low half, both at most 15; 255s and a last byte that sums up to the rest; the literals; the offset,
      low byte first; and the rest of the match length in the same way. */
  lemma SequenceLayout(s: Sequence)
    requires s.len >= 4 && s.offset < 0x1_0000
    ensures var e, lits, code := EncodeSequence(s), |s.lits|, s.len - 4;
      var p := 1 + More(lits) + lits;
      && |e| == p + 2 + More(code)
      && e[0] == 16 * (if lits < 15 then lits else 15) + (if code < 15 then code else 15)
      && (forall i: nat :: 1 <= i < More(lits) ==> e[i] == 255) && (lits >= 15 ==> e[More(lits)] == (lits - 15) % 255)
      && e[1 + More(lits)..p] == s.lits
      && e[p] as int + 256 * (e[p + 1] as int) == s.offset
      && (forall i: nat :: p + 2 <= i < |e| - 1 ==> e[i] == 255) && (code >= 15 ==> e[|e| - 1] == (code - 15) % 255)
  {
    hide LengthBytes, More;
    var lits, code := |s.lits|, s.len - 4;
    LengthLayout(lits);
    LengthLayout(code);
    ShortOrLong(lits);
    ShortOrLong(code);
    var a, b := [Token(lits, Nibble(code))] + LengthBytes(lits), LittleEndian16(s.offset);
    assert EncodeSequence(s) == a + s.lits + b + LengthBytes(code);
  }

  lemma ShortOrLong(n: nat)
    ensures if n < 15 then More(n) == 0 else More(n) >= 1
  {}

  /** When the decoder accepts a block of one sequence and last literals, in numbers. */
  lemma OneSequenceIsAcceptable(s: Sequence, last: Bytes, cap: nat)
    ensures Lz4Grammar.Acceptable(Block([s], last, 0), cap) <==>
      && s.len >= 4 && s.offset <= |s.lits| && s.offset < 0x1_0000
      && |s.lits| + 12 <= cap && |s.lits| + s.len + 5 <= cap && |s.lits| + s.len + |last| <= cap
      && More(s.len - 4) + More(|last|) + |last| >= 5 && (s.len >= 19 ==> More(|last|) + |last| >= 4)
  {
    hide LengthBytes, More;
    LengthLayout(|last|);
    assert [s][1..] == [] && (LongMatches([s]) <==> s.len >= 4);
    assert |EncodeAll([], last, 0)| == 1 + More(|last|) + |last|;
    var n := |s.lits| + s.len;
    assert Admissible(n, [], last, 0, cap) <==> n + |last| <= cap;
    if s.len >= 4 {
      LengthLayout(s.len - 4);
      assert Admissible(0, [s], last, 0, cap) <==>
        Fits(s, 0, |EncodeAll([], last, 0)|, cap) && Admissible(n, [], last, 0, cap);
    }
  }

  // ----- The invariant of the compressor -----

  /** `ss` is a genuine parse of `src[..anchor]` and `written` its encoding. */
  ghost predicate Parsed(src: Bytes, ss: seq<Sequence>, anchor: nat, written: Bytes) {
    && anchor <= |src|
    && AllGenuine(ss, 0, |src|) && LongMatches(ss)
    && Expand([], ss) == src[..anchor]
    && EncodeSequences(ss) == written
    && 255 * |written| <= 256 * anchor
    && (ss != [] ==> anchor + LASTLITERALS <= |src|)
  }

  lemma NothingParsed(src: Bytes)
    ensures Parsed(src, [], 0, [])
  {}

  lemma ParsedMore(src: Bytes, ss: seq<Sequence>, anchor: nat, written: Bytes, here: nat, m: nat, len: nat)
    requires Parsed(src, ss, anchor, written)
    requires anchor <= here && m < here && here - m <= MAX_DISTANCE && len >= MINMATCH
    requires here + MFLIMIT <= |src| && here + len + LASTLITERALS <= |src|
    requires Continues(src, here, here + len, here - m)
    ensures var s := Sequence(src[anchor..here], here - m, len);
            Parsed(src, ss + [s], here + len, written + EncodeSequence(s))
  {
    hide EncodeSequence, CopyMatch, Expand, AllGenuine, LongMatches, EncodeSequences, Continues;
    var s := Sequence(src[anchor..here], here - m, len);
    assert src[..anchor] + s.lits == src[..here];
    ContinuesIsCopyMatch(src, here, here + len, here - m);
    ExpandAppend([], ss, s);
    GenuineAppend(ss, s, [], |src|);
    EncodeAppend(ss, s);
    SequenceSize(s);
  }

  // ----- A genuine parse respects the decoder's restrictions -----

  lemma LastIsLong(ss: seq<Sequence>, last: Bytes)
    requires LongMatches(ss)
    ensures |EncodeAll(ss, last, 0)| >= 1 + |last|
    decreases |ss|
  {
    if ss != [] { LastIsLong(ss[1..], last); }
  }

  lemma {:induction false} GenuineIsAdmissible(ss: seq<Sequence>, out: Bytes, last: Bytes, n: nat)
    requires AllGenuine(ss, |out|, n) && |Expand(out, ss)| + |last| == n
    requires ss != [] ==> |last| >= LASTLITERALS
    ensures Admissible(|out|, ss, last, 0, n)
    decreases |ss|
  {
    hide EncodeSequence, EncodeLast, Apply, LengthBytes;
    GenuineAreLong(ss, |out|, n);
    if ss != [] {
      GenuineIsAdmissible(ss[1..], Apply(out, ss[0]), last, n);
      LastIsLong(ss[1..], last);
    }
  }

  /** Compressed data: the encoding of a genuine parse of `src`. */
  ghost predicate CompressionOf(src: Bytes, b: Block, written: Bytes) {
    && AllGenuine(b.seqs, 0, |src|) && LongMatches(b.seqs) && b.spare == 0
    && (b.seqs != [] ==> |b.last| >= LASTLITERALS)
    && Meaning(b) == src
    && Encode(b) == written
  }

  lemma ParsedToTheEnd(src: Bytes, ss: seq<Sequence>, anchor: nat, written: Bytes)
    requires Parsed(src, ss, anchor, written)
    ensures var last := src[anchor..];
      && CompressionOf(src, Block(ss, last, 0), written + EncodeLast(last, 0))
      && |written + EncodeLast(last, 0)| <= |src| + |src| / 255 + 2
  {
    hide EncodeLast, EncodeSequences, EncodeAll, Expand, AllGenuine;
    var last := src[anchor..];
    EncodeAllSplits(ss, last, 0);
    LastSize(last);
    assert src[..anchor] + last == src;
  }

  /** The safe decoder turns any such data back into `src`, given room for exactly `|src|` bytes. */
  lemma CompressionDecodes(src: Bytes, b: Block, written: Bytes)
    requires CompressionOf(src, b, written)
    ensures Lz4Grammar.Acceptable(b, |src|)
    ensures (|src| > 0 ==> Readable(written)) && Decode(written, |src|) == Decoded(src)
  {
    hide EncodeAll, Expand, AllGenuine, DecodeRest, Admissible;
    GenuineIsAdmissible(b.seqs, [], b.last, |src|);
    Lz4Grammar.AcceptedMeansWhatItEncodes(b, |src|);
  }
}

/** The safe decoder accepts exactly the blocks of the format that respect its parsing
    restrictions, and gives each its meaning. */
module Lz4Grammar {
  import opened Lz4Format

  // ----- Length bytes, both ways -----

  lemma {:induction false} ExtensionReadsAsLiterals(n: nat, tail: Bytes, len: nat)
    requires n < 255 || n + RUN_MASK <= |tail|
    ensures LiteralLength(Extension(n) + tail, len) == (len + n, tail)
    decreases n
  {
    var all := Extension(n) + tail;
    if n < 255 {
      assert all[1..] == tail;
    } else {
      assert all[1..] == Extension(n - 255) + tail;
      ExtensionReadsAsLiterals(n - 255, tail, len + 255);
    }
  }

  lemma {:induction false} LiteralsReadAreExtension(rest: Bytes, len: nat)
    requires |rest| >= 1
    ensures var (total, tail) := LiteralLength(rest, len);
            total >= len && (total - len <= |tail| ==> rest == Extension(total - len) + tail)
    decreases |rest|
  {
    var (total, tail) := LiteralLength(rest, len);
    if rest[0] == 255 && |rest| - 1 > RUN_MASK {
      LiteralsReadAreExtension(rest[1..], len + 255);
      if total - len <= |tail| {
        assert rest == [255] + (Extension(total - len - 255) + tail);
        assert rest == Extension(total - len) + tail;
      }
    } else if total - len <= |tail| {
      assert rest == [rest[0]] + tail;
    }
  }

  lemma {:induction false} ExtensionReadsAsMatch(n: nat, tail: Bytes, len: nat)
    requires |tail| >= LASTLITERALS
    ensures MatchLength(Extension(n) + tail, len) == MatchLen(len + n, tail)
    decreases n
  {
    var all := Extension(n) + tail;
    if n < 255 {
      assert all[1..] == tail;
    } else {
      assert all[1..] == Extension(n - 255) + tail;
      ExtensionReadsAsMatch(n - 255, tail, len + 255);
    }
  }

  lemma {:induction false} MatchReadIsExtension(rest: Bytes, len: nat)
    requires |rest| >= 1 && MatchLength(rest, len).MatchLen?
    ensures var m := MatchLength(rest, len); m.len >= len && rest == Extension(m.len - len) + m.rest
    decreases |rest|
  {
    var m := MatchLength(rest, len);
    if rest[0] == 255 {
      MatchReadIsExtension(rest[1..], len + 255);
      assert rest == [255] + (Extension(m.len - len - 255) + m.rest);
      assert rest == Extension(m.len - len) + m.rest;
    } else {
      assert rest == [rest[0]] + m.rest;
    }
  }

  // ----- Tokens and matches, both ways -----

  lemma TokenReads(n: nat, low: nat, tail: Bytes)
    requires low < 16 && n <= |tail|
    ensures var all := [Token(n, low)] + LengthBytes(n) + tail;
            Readable(all) && ReadToken(all) == (n, tail) && all[0] % 16 == low
  {
    var all := [Token(n, low)] + LengthBytes(n) + tail;
    assert all[1..] == LengthBytes(n) + tail;
    if n >= 15 { ExtensionReadsAsLiterals(n - 15, tail, 15); }
  }

  lemma TokenReadIsEncoded(rest: Bytes)
    requires Readable(rest) && ReadToken(rest).0 <= |ReadToken(rest).1|
    ensures var (n, tail) := ReadToken(rest); rest == [Token(n, rest[0] % 16)] + LengthBytes(n) + tail
  {
    var (n, tail) := ReadToken(rest);
    if rest[0] / 16 == RUN_MASK { LiteralsReadAreExtension(rest[1..], RUN_MASK); }
    assert rest == [rest[0]] + rest[1..];
  }

  lemma LittleEndianWrites(v: nat)
    requires v < 0x1_0000
    ensures ReadLE16(v % 256, v / 256 % 256) == v
  {}

  lemma MatchReads(offset: nat, code: nat, tail: Bytes, produced: nat)
    requires offset <= produced && offset < 0x1_0000
    requires 2 + |LengthBytes(code)| + |tail| >= 2 + 1 + LASTLITERALS
    requires code >= ML_MASK ==> |tail| >= LASTLITERALS
    ensures ReadMatch(LittleEndian16(offset) + LengthBytes(code) + tail, Nibble(code), produced)
         == MatchHeader(offset, code, tail)
  {
    hide MatchLength, Extension;
    var all := LittleEndian16(offset) + LengthBytes(code) + tail;
    LittleEndianWrites(offset);
    assert all[0] == offset % 256 && all[1] == offset / 256 % 256;
    assert all[2..] == LengthBytes(code) + tail;
    if code >= 15 { ExtensionReadsAsMatch(code - 15, tail, 15); }
  }

  lemma LittleEndianReads(b0: Byte, b1: Byte)
    ensures LittleEndian16(ReadLE16(b0, b1)) == [b0, b1]
  {}

  lemma MatchReadIsEncoded(rest: Bytes, low: nat, produced: nat)
    requires |rest| >= 2 + 1 + LASTLITERALS && low < 16 && ReadMatch(rest, low, produced).MatchHeader?
    ensures var h := ReadMatch(rest, low, produced);
      && rest == LittleEndian16(h.offset) + LengthBytes(h.code) + h.rest
      && low == Nibble(h.code)
      && (h.code >= ML_MASK ==> |h.rest| >= LASTLITERALS)
  {
    hide MatchLength, Extension;
    var h := ReadMatch(rest, low, produced);
    if low == ML_MASK { MatchReadIsExtension(rest[2..], ML_MASK); }
    LittleEndianReads(rest[0], rest[1]);
    assert rest == [rest[0], rest[1]] + rest[2..];
    assert rest[2..] == LengthBytes(h.code) + h.rest;
  }

  // ----- Whole blocks -----

  lemma Regroup<T>(a: seq<T>, b: seq<T>, c: seq<T>, d: seq<T>, e: seq<T>, f: seq<T>)
    ensures a + b + c + d + e + f == a + b + (c + (d + e + f))
  {}

  lemma LiteralStepReads(lits: Bytes, low: nat, tail: Bytes, out: Bytes, cap: nat)
    requires low < 16
    requires |out| + |lits| + MFLIMIT <= cap && |tail| >= 2 + 1 + LASTLITERALS
    ensures var all := [Token(|lits|, low)] + LengthBytes(|lits|) + (lits + tail);
      && Readable(all) && all[0] % 16 == low
      && StepLiterals(all, out, cap) == AtMatch(tail, out + lits)
  {
    TokenReads(|lits|, low, lits + tail);
    assert (lits + tail)[..|lits|] == lits && (lits + tail)[|lits|..] == tail;
  }

  lemma MatchStepReads(offset: nat, code: nat, tail: Bytes, out: Bytes, cap: nat)
    requires offset <= |out| && offset < 0x1_0000 && |out| + code + MINMATCH + LASTLITERALS <= cap
    requires 2 + |LengthBytes(code)| + |tail| >= 2 + 1 + LASTLITERALS
    requires code >= ML_MASK ==> |tail| >= LASTLITERALS
    ensures StepMatch(LittleEndian16(offset) + LengthBytes(code) + tail, Nibble(code), out, cap)
         == Copied(tail, CopyMatch(out, offset, code + MINMATCH))
  {
    hide ReadMatch, CopyMatch, LengthBytes, LittleEndian16;
    MatchReads(offset, code, tail, |out|);
  }

  /** One sequence in front of `tail` decodes to its literals and its match. */
  lemma SequenceReads(s: Sequence, tail: Bytes, out: Bytes, cap: nat)
    requires Fits(s, |out|, |tail|, cap)
    ensures var all := EncodeSequence(s) + tail;
      && Readable(all)
      && (Readable(tail) ==> DecodeRest(all, out, cap) == DecodeRest(tail, Apply(out, s), cap))
  {
    hide LengthBytes, LittleEndian16, StepLiterals, StepMatch, CopyMatch;
    var code := s.len - MINMATCH;
    var afterLits := LittleEndian16(s.offset) + LengthBytes(code) + tail;
    Regroup([Token(|s.lits|, Nibble(code))], LengthBytes(|s.lits|), s.lits,
            LittleEndian16(s.offset), LengthBytes(code), tail);
    LiteralStepReads(s.lits, Nibble(code), afterLits, out, cap);
    MatchStepReads(s.offset, code, tail, out + s.lits, cap);
  }

  // ----- Where errors are found -----

  /** An offset that reaches in front of the output is refused right behind it: what is left is the length bytes
      of the match and everything after. */
  lemma BadOffsetIsRefused(s: Sequence, tail: Bytes, out: Bytes, cap: nat)
    requires s.len >= 4 && |out| + |s.lits| < s.offset < 0x1_0000 && |out| + |s.lits| + 12 <= cap
    requires |LengthBytes(s.len - 4)| + |tail| >= 6
    ensures var all := EncodeSequence(s) + tail;
      Readable(all) && DecodeRest(all, out, cap) == Malformed(|LengthBytes(s.len - 4)| + |tail|)
  {
    hide LengthBytes, StepLiterals, CopyMatch, MatchLength;
    var code := s.len - 4;
    var afterLits := LittleEndian16(s.offset) + LengthBytes(code) + tail;
    Regroup([Token(|s.lits|, Nibble(code))], LengthBytes(|s.lits|), s.lits,
            LittleEndian16(s.offset), LengthBytes(code), tail);
    LiteralStepReads(s.lits, Nibble(code), afterLits, out, cap);
    LittleEndianWrites(s.offset);
    assert afterLits[0] == s.offset % 256 && afterLits[1] == s.offset / 256 % 256;
    assert ReadMatch(afterLits, Nibble(code), |out + s.lits|) == BadHeader(|afterLits| - 2);
  }

  /** A match that would leave fewer than five bytes of the output is refused behind its length. */
  lemma LongMatchIsRefused(s: Sequence, tail: Bytes, out: Bytes, cap: nat)
    requires s.len >= 4 && s.offset <= |out| + |s.lits| && s.offset < 0x1_0000
    requires |out| + |s.lits| + 12 <= cap < |out| + |s.lits| + s.len + 5
    requires |LengthBytes(s.len - 4)| + |tail| >= 6 && |tail| >= 5
    ensures var all := EncodeSequence(s) + tail;
      Readable(all) && DecodeRest(all, out, cap) == Malformed(|tail|)
  {
    hide LengthBytes, LittleEndian16, StepLiterals, CopyMatch, ReadMatch;
    var code := s.len - 4;
    var afterLits := LittleEndian16(s.offset) + LengthBytes(code) + tail;
    Regroup([Token(|s.lits|, Nibble(code))], LengthBytes(|s.lits|), s.lits,
            LittleEndian16(s.offset), LengthBytes(code), tail);
    LiteralStepReads(s.lits, Nibble(code), afterLits, out, cap);
    MatchReads(s.offset, code, tail, |out + s.lits|);
    assert StepMatch(afterLits, Nibble(code), out + s.lits, cap) == BadMatch(|tail|);
  }

  /** A byte string of 255s. */
  function Full(n: nat): (r: Bytes)
    ensures |r| == n && forall i :: 0 <= i < n ==> r[i] == 255
  {
    seq(n, _ => 255)
  }

  lemma {:induction false} LiteralLengthOfFull(n: nat, len: nat)
    requires n >= 16
    ensures LiteralLength(Full(n), len).0 == len + 255 * (n - 15) && LiteralLength(Full(n), len).1 == Full(15)
    decreases n
  {
    assert Full(n)[1..] == Full(n - 1);
    if n > 16 { LiteralLengthOfFull(n - 1, len + 255); }
  }

  /** A literal run whose length never ends is refused 15 bytes before the end of the input. */
  lemma EndlessLiteralsAreRefused(n: nat, cap: nat)
    requires n >= 16 && cap > 0
    ensures Decode([0xF0] + Full(n), cap) == Malformed(15)
  {
    var src := [0xF0] + Full(n);
    assert src[1..] == Full(n);
    LiteralLengthOfFull(n, 15);
    assert ReadToken(src) == (15 + 255 * (n - 15), Full(15));
    assert StepLiterals(src, [], cap) == BadLiterals(15);
  }

  lemma {:induction false} MatchLengthOfFull(n: nat, len: nat)
    requires n >= 5
    ensures MatchLength(Full(n), len) == Short(4)
    decreases n
  {
    assert Full(n)[1..] == Full(n - 1);
    if n > 5 { MatchLengthOfFull(n - 1, len + 255); }
  }

  /** A match whose length never ends is refused when fewer than five bytes are left behind the one read. */
  lemma EndlessMatchIsRefused(lits: Bytes, offset: nat, n: nat, out: Bytes, cap: nat)
    requires offset <= |out| + |lits| && offset < 0x1_0000 && |out| + |lits| + 12 <= cap && n >= 6
    ensures var all := [Token(|lits|, 15)] + LengthBytes(|lits|) + (lits + (LittleEndian16(offset) + Full(n)));
      Readable(all) && DecodeRest(all, out, cap) == Malformed(4)
  {
    hide LengthBytes, StepLiterals, CopyMatch, MatchLength, Full;
    var afterLits := LittleEndian16(offset) + Full(n);
    LiteralStepReads(lits, 15, afterLits, out, cap);
    LittleEndianWrites(offset);
    assert afterLits[0] == offset % 256 && afterLits[1] == offset / 256 % 256 && afterLits[2..] == Full(n);
    MatchLengthOfFull(n, 15);
    assert ReadMatch(afterLits, 15, |out + lits|) == BadHeader(4);
  }

  lemma LastReads(last: Bytes, spare: nat, out: Bytes, cap: nat)
    requires spare < 16 && |out| + |last| <= cap
    ensures Readable(EncodeLast(last, spare))
    ensures DecodeRest(EncodeLast(last, spare), out, cap) == Decoded(out + last)
  {
    TokenReads(|last|, spare, last);
    assert StepLiterals(EncodeLast(last, spare), out, cap) == Finished(out + last);
  }

  lemma {:induction false} EncodedDecodes(ss: seq<Sequence>, last: Bytes, spare: nat, out: Bytes, cap: nat)
    requires Admissible(|out|, ss, last, spare, cap)
    ensures var all := EncodeAll(ss, last, spare);
      && Readable(all)
      && DecodeRest(all, out, cap) == Decoded(Expand(out, ss) + last)
    decreases |ss|
  {
    hide EncodeSequence, EncodeLast, DecodeRest, Apply, Fits, Readable;
    if ss == [] {
      LastReads(last, spare, out, cap);
    } else {
      SequenceReads(ss[0], EncodeAll(ss[1..], last, spare), out, cap);
      EncodedDecodes(ss[1..], last, spare, Apply(out, ss[0]), cap);
    }
  }

  /** The sequence that the decoder read when it got past one match. */
  lemma StepIsSequence(rest: Bytes, out: Bytes, cap: nat) returns (s: Sequence)
    requires Readable(rest) && StepLiterals(rest, out, cap).AtMatch?
    requires StepMatch(StepLiterals(rest, out, cap).rest, rest[0] % 16, StepLiterals(rest, out, cap).sofar, cap).Copied?
    ensures var l := StepLiterals(rest, out, cap);
      var m := StepMatch(l.rest, rest[0] % 16, l.sofar, cap);
      && s.len >= MINMATCH && Fits(s, |out|, |m.rest|, cap)
      && m.sofar == Apply(out, s) && rest == EncodeSequence(s) + m.rest
  {
    hide LengthBytes, ReadToken, ReadMatch, LittleEndian16, CopyMatch;
    TokenReadIsEncoded(rest);
    var (n, r2) := ReadToken(rest);
    var l := StepLiterals(rest, out, cap);
    MatchReadIsEncoded(l.rest, rest[0] % 16, |l.sofar|);
    var h := ReadMatch(l.rest, rest[0] % 16, |l.sofar|);
    s := Sequence(r2[..n], h.offset, h.code + MINMATCH);
    assert r2 == s.lits + l.rest;
    assert out + s.lits == l.sofar;
    Regroup([rest[0]], LengthBytes(n), s.lits, LittleEndian16(h.offset), LengthBytes(h.code), h.rest);
  }

  lemma FinishIsLast(rest: Bytes, out: Bytes, cap: nat) returns (last: Bytes, spare: nat)
    requires Readable(rest) && StepLiterals(rest, out, cap).Finished?
    ensures spare < 16 && |out| + |last| <= cap
    ensures StepLiterals(rest, out, cap) == Finished(out + last) && rest == EncodeLast(last, spare)
  {
    hide LengthBytes, ReadToken;
    TokenReadIsEncoded(rest);
    last, spare := ReadToken(rest).1, rest[0] % 16;
  }

  lemma {:induction false} DecodedIsEncoded(rest: Bytes, out: Bytes, cap: nat)
    returns (ss: seq<Sequence>, last: Bytes, spare: nat)
    requires Readable(rest) && DecodeRest(rest, out, cap).Decoded?
    ensures Admissible(|out|, ss, last, spare, cap)
    ensures EncodeAll(ss, last, spare) == rest
    ensures DecodeRest(rest, out, cap) == Decoded(Expand(out, ss) + last)
    decreases |rest|
  {
    hide EncodeSequence, EncodeLast, Apply, Fits, StepLiterals, StepMatch;
    var l := StepLiterals(rest, out, cap);
    if l.Finished? {
      ss := [];
      last, spare := FinishIsLast(rest, out, cap);
    } else {
      var s := StepIsSequence(rest, out, cap);
      var m := StepMatch(l.rest, rest[0] % 16, l.sofar, cap);
      var tail;
      tail, last, spare := DecodedIsEncoded(m.rest, m.sofar, cap);
      ss := [s] + tail;
      assert ss[1..] == tail;
    }
  }

  /** Blocks the decoder takes into an output buffer of `cap` bytes. With no output room only the
      one-byte empty block is taken, so its spare nibble must be zero. */
  ghost predicate Acceptable(b: Block, cap: nat) {
    Admissible(0, b.seqs, b.last, b.spare, cap) && (cap == 0 ==> b.spare == 0)
  }

  /** The decoder succeeds exactly on the encodings of acceptable blocks. */
  lemma AcceptsExactlyTheFormat(src: Bytes, cap: nat)
    requires cap > 0 ==> Readable(src)
    ensures Decode(src, cap).Decoded? <==> exists b: Block :: Acceptable(b, cap) && Encode(b) == src
  {
    if Decode(src, cap).Decoded? {
      if cap == 0 {
        var b := Block([], [], 0);
        assert Encode(b) == src && Acceptable(b, cap);
      } else {
        var ss, last, spare := DecodedIsEncoded(src, [], cap);
        var b := Block(ss, last, spare);
        assert Encode(b) == src && Acceptable(b, cap);
      }
    }
    forall b: Block | Acceptable(b, cap) && Encode(b) == src ensures Decode(src, cap).Decoded? {
      AcceptedMeansWhatItEncodes(b, cap);
    }
  }

  /** And then produces the meaning of the block. */
  lemma AcceptedMeansWhatItEncodes(b: Block, cap: nat)
    requires Acceptable(b, cap)
    ensures cap > 0 ==> Readable(Encode(b))
    ensures Decode(Encode(b), cap) == Decoded(Meaning(b))
  {
    EncodedDecodes(b.seqs, b.last, b.spare, [], cap);
    if cap == 0 {
      assert b.seqs == [] && b.last == [];
      assert Encode(b) == [0];
    }
  }
}

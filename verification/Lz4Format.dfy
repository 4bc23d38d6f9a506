/** The LZ4 block format: what a compressed block means, and the decision procedure of
    the safe decoder stated over values. */
module Lz4Format {

  type Byte = b: int | 0 <= b < 256
  type Bytes = seq<Byte>

  const MINMATCH: nat := 4
  const WILDCOPYLENGTH: nat := 8
  const LASTLITERALS: nat := 5
  const MFLIMIT: nat := WILDCOPYLENGTH + MINMATCH
  const ML_MASK: nat := 15
  const RUN_MASK: nat := 15

  // ----- What a block means -----

  /** One sequence: literals, then a match copied from `offset` bytes back. */
  datatype Sequence = Sequence(lits: Bytes, offset: nat, len: nat)

  /** `spare` is the low nibble of the last token, which the decoder never looks at. */
  datatype Block = Block(seqs: seq<Sequence>, last: Bytes, spare: nat)

  /** The byte a match at `offset` contributes next. A zero offset reads the zero the decoder
      has just stored at the output cursor. */
  function MatchByte(out: Bytes, offset: nat): Byte {
    if 1 <= offset <= |out| then out[|out| - offset] else 0
  }

  /** The naive match copy, one byte at a time, so that it may overlap its own output. */
  function CopyMatch(out: Bytes, offset: nat, len: nat): (r: Bytes)
    ensures |r| == |out| + len
    decreases len
  {
    if len == 0 then out else CopyMatch(out + [MatchByte(out, offset)], offset, len - 1)
  }

  function Apply(out: Bytes, s: Sequence): (r: Bytes)
    ensures |r| == |out| + |s.lits| + s.len
  {
    CopyMatch(out + s.lits, s.offset, s.len)
  }

  function Expand(out: Bytes, ss: seq<Sequence>): Bytes
    decreases |ss|
  {
    if ss == [] then out else Expand(Apply(out, ss[0]), ss[1..])
  }

  /** The decompressed contents of a block. */
  function Meaning(b: Block): Bytes {
    Expand([], b.seqs) + b.last
  }

  // ----- Recognising a match copy in a buffer -----

  /** `s[from..upto]` continues a match at distance `offset`. */
  ghost predicate Continues(s: Bytes, from: nat, upto: nat, offset: nat)
    requires offset <= from && upto <= |s|
  {
    forall k :: from <= k < upto ==> s[k] == if offset == 0 then 0 else s[k - offset]
  }

  /** A buffer that continues the match is the naive copy. */
  lemma {:induction false} ContinuesIsCopyMatch(s: Bytes, from: nat, upto: nat, offset: nat)
    requires offset <= from <= upto <= |s|
    requires Continues(s, from, upto, offset)
    ensures s[..upto] == CopyMatch(s[..from], offset, upto - from)
    decreases upto - from
  {
    if from < upto {
      assert s[..from + 1] == s[..from] + [MatchByte(s[..from], offset)];
      ContinuesIsCopyMatch(s, from + 1, upto, offset);
    }
  }

  // ----- How a block is written down -----

  function Nibble(n: nat): nat {
    if n < 15 then n else 15
  }

  function Extension(n: nat): Bytes {
    if n < 255 then [n] else [255] + Extension(n - 255)
  }

  function LengthBytes(n: nat): Bytes {
    if n < 15 then [] else Extension(n - 15)
  }

  function LittleEndian16(v: nat): (r: Bytes)
    ensures |r| == 2
  {
    [v % 256, v / 256 % 256]
  }

  function ReadLE16(b0: nat, b1: nat): nat {
    b0 + 256 * b1
  }

  function Token(literals: nat, low: nat): Byte
    requires low < 16
  {
    Nibble(literals) * 16 + low
  }

  function EncodeSequence(s: Sequence): Bytes
    requires s.len >= MINMATCH
  {
    [Token(|s.lits|, Nibble(s.len - MINMATCH))] + LengthBytes(|s.lits|) + s.lits
      + LittleEndian16(s.offset) + LengthBytes(s.len - MINMATCH)
  }

  function EncodeLast(last: Bytes, spare: nat): Bytes
    requires spare < 16
  {
    [Token(|last|, spare)] + LengthBytes(|last|) + last
  }

  function EncodeAll(ss: seq<Sequence>, last: Bytes, spare: nat): Bytes
    requires LongMatches(ss) && spare < 16
    decreases |ss|
  {
    if ss == [] then EncodeLast(last, spare) else EncodeSequence(ss[0]) + EncodeAll(ss[1..], last, spare)
  }

  predicate LongMatches(ss: seq<Sequence>)
    decreases |ss|
  {
    ss != [] ==> ss[0].len >= MINMATCH && LongMatches(ss[1..])
  }

  function Encode(b: Block): Bytes
    requires LongMatches(b.seqs) && b.spare < 16
  {
    EncodeAll(b.seqs, b.last, b.spare)
  }

  // ----- The parsing restrictions -----

  /** What the safe decoder demands of a sequence that starts after `produced` bytes of output and
      has `after` bytes of input behind it, when the output buffer holds `cap` bytes. */
  ghost predicate Fits(s: Sequence, produced: nat, after: nat, cap: nat) {
    var here := produced + |s.lits|;
    && s.len >= MINMATCH && s.offset <= here && s.offset < 0x1_0000
    && here + MFLIMIT <= cap
    && here + s.len + LASTLITERALS <= cap
    && 2 + |LengthBytes(s.len - MINMATCH)| + after >= 2 + 1 + LASTLITERALS
    && (s.len - MINMATCH >= ML_MASK ==> after >= LASTLITERALS)
  }

  ghost predicate Admissible(produced: nat, ss: seq<Sequence>, last: Bytes, spare: nat, cap: nat)
    decreases |ss|
  {
    spare < 16 && LongMatches(ss) &&
    if ss == [] then produced + |last| <= cap
    else
      && Fits(ss[0], produced, |EncodeAll(ss[1..], last, spare)|, cap)
      && Admissible(produced + |ss[0].lits| + ss[0].len, ss[1..], last, spare, cap)
  }

  // ----- The safe decoder, over values -----

  /** `left` counts the input bytes not yet consumed when the error was found. */
  datatype Decoded = Decoded(out: Bytes) | Malformed(left: nat)

  /** The decoder never reads past its input, provided the first token does not announce a
      length byte that is not there. */
  predicate Readable(rest: Bytes) {
    |rest| >= 1 && (|rest| == 1 ==> rest[0] / 16 != RUN_MASK)
  }

  function LiteralLength(rest: Bytes, len: nat): (r: (nat, Bytes))
    requires |rest| >= 1
    ensures |r.1| < |rest|
  {
    if rest[0] == 255 && |rest| - 1 > RUN_MASK then LiteralLength(rest[1..], len + 255)
    else (len + rest[0], rest[1..])
  }

  datatype MatchLen = MatchLen(len: nat, rest: Bytes) | Short(left: nat)

  function MatchLength(rest: Bytes, len: nat): (r: MatchLen)
    requires |rest| >= 1
    ensures r.MatchLen? ==> LASTLITERALS <= |r.rest| < |rest|
  {
    if |rest| - 1 < LASTLITERALS then Short(|rest| - 1)
    else if rest[0] == 255 then MatchLength(rest[1..], len + 255)
    else MatchLen(len + rest[0], rest[1..])
  }

  /** The number of literals a token announces, and what follows its length bytes. */
  function ReadToken(rest: Bytes): (r: (nat, Bytes))
    requires Readable(rest)
    ensures |r.1| < |rest|
  {
    if rest[0] / 16 == RUN_MASK then LiteralLength(rest[1..], RUN_MASK) else (rest[0] / 16, rest[1..])
  }

  /** Offset and match length; `code` is the match length less MINMATCH. */
  datatype MatchHeader = MatchHeader(offset: nat, code: nat, rest: Bytes) | BadHeader(left: nat)

  function ReadMatch(rest: Bytes, low: nat, produced: nat): (h: MatchHeader)
    requires |rest| >= 2 + 1 + LASTLITERALS && low < 16
    ensures h.MatchHeader? ==> LASTLITERALS <= |h.rest| < |rest| && h.offset <= produced && h.offset < 0x1_0000
  {
    var offset := ReadLE16(rest[0], rest[1]);
    if offset > produced then BadHeader(|rest| - 2)
    else if low < ML_MASK then MatchHeader(offset, low, rest[2..])
    else
      match MatchLength(rest[2..], ML_MASK)
      case Short(left) => BadHeader(left)
      case MatchLen(code, r) => MatchHeader(offset, code, r)
  }

  /** What one token with its literals leads to: an error, the end of the block, or a match. */
  datatype LiteralStep = BadLiterals(left: nat) | Finished(out: Bytes) | AtMatch(rest: Bytes, sofar: Bytes)

  function StepLiterals(rest: Bytes, out: Bytes, cap: nat): (r: LiteralStep)
    requires Readable(rest)
    ensures r.AtMatch? ==> 2 + 1 + LASTLITERALS <= |r.rest| < |rest|
  {
    var (literals, r2) := ReadToken(rest);
    if |out| + literals + MFLIMIT > cap || literals + (2 + 1 + LASTLITERALS) > |r2| then
      if literals != |r2| || |out| + literals > cap then BadLiterals(|r2|) else Finished(out + r2)
    else
      AtMatch(r2[literals..], out + r2[..literals])
  }

  datatype MatchStep = BadMatch(left: nat) | Copied(rest: Bytes, sofar: Bytes)

  function StepMatch(rest: Bytes, low: nat, out: Bytes, cap: nat): (r: MatchStep)
    requires |rest| >= 2 + 1 + LASTLITERALS && low < 16
    ensures r.Copied? ==> LASTLITERALS <= |r.rest| < |rest|
  {
    match ReadMatch(rest, low, |out|)
    case BadHeader(left) => BadMatch(left)
    case MatchHeader(offset, code, r) =>
      if |out| + code + MINMATCH + LASTLITERALS > cap then BadMatch(|r|)
      else Copied(r, CopyMatch(out, offset, code + MINMATCH))
  }

  function DecodeRest(rest: Bytes, out: Bytes, cap: nat): Decoded
    requires Readable(rest)
    decreases |rest|
  {
    match StepLiterals(rest, out, cap)
    case BadLiterals(left) => Malformed(left)
    case Finished(all) => Decoded(all)
    case AtMatch(r, sofar) =>
      match StepMatch(r, rest[0] % 16, sofar, cap)
      case BadMatch(left) => Malformed(left)
      case Copied(r', next) => DecodeRest(r', next, cap)
  }

  /** The whole decoder: an empty output buffer accepts only the one-byte empty block. */
  function Decode(src: Bytes, cap: nat): Decoded
    requires cap > 0 ==> Readable(src)
  {
    if cap == 0 then if src == [0] then Decoded([]) else Malformed(|src|)
    else DecodeRest(src, [], cap)
  }
}

/** LZ4_compress_generic (noDict, notLimited, byU16 and byU32), in place, for every hash function. */
module Lz4Compressor {
  import opened Lz4Format
  import opened Lz4Memory
  import opened Lz4Parse
  import opened Lz4Search

  const LZ4_64KLIMIT: nat := 0x1_0000 + (MFLIMIT - 1)
  const LZ4_MIN_LENGTH: nat := MFLIMIT + 1
  const SKIP_TRIGGER_STEP: nat := 64

  // ----- Reading ahead -----

  predicate Same(src: Bytes, p: nat, q: nat, n: nat)
    requires p + n <= |src| && q + n <= |src|
  {
    src[p..p + n] == src[q..q + n]
  }

  /** LZ4_NbCommonBytes: the number of leading bytes two unequal 8-byte words share. */
  function CommonBytes(a: Bytes, b: Bytes): (n: nat)
    requires |a| == |b| && a != b
    ensures n < |a| && a[..n] == b[..n] && a[n] != b[n]
  {
    if a[0] != b[0] then 0
    else
      assert a == [a[0]] + a[1..] && b == [b[0]] + b[1..];
      1 + CommonBytes(a[1..], b[1..])
  }

  /** The length of the common prefix of `src[p..limit]` and `src[m..]`. */
  function Common(src: Bytes, p: nat, m: nat, limit: nat): nat
    requires m < p && limit <= |src|
    decreases limit - p
  {
    if p < limit && src[p] == src[m] then 1 + Common(src, p + 1, m + 1, limit) else 0
  }

  lemma {:induction false} CommonIsExact(src: Bytes, p: nat, m: nat, limit: nat)
    requires m < p <= limit <= |src|
    ensures var c := Common(src, p, m, limit);
      && p + c <= limit
      && Continues(src, p, p + c, p - m)
      && (p + c == limit || src[p + c] != src[m + c])
    decreases limit - p
  {
    if p < limit && src[p] == src[m] {
      CommonIsExact(src, p + 1, m + 1, limit);
      forall k | p <= k < p + Common(src, p, m, limit) ensures src[k] == src[k - (p - m)] {
        assert k > p ==> src[k] == src[k - ((p + 1) - (m + 1))];
      }
    }
  }

  /** A comparison of `n` bytes succeeds exactly when the common prefix is that long. */
  lemma {:induction false} SameMeansCommon(src: Bytes, p: nat, m: nat, limit: nat, n: nat)
    requires m < p && p + n <= limit <= |src|
    ensures Same(src, m, p, n) <==> Common(src, p, m, limit) >= n
    ensures Same(src, m, p, n) ==> Common(src, p, m, limit) == n + Common(src, p + n, m + n, limit)
    decreases n
  {
    if n > 0 {
      SameMeansCommon(src, p + 1, m + 1, limit, n - 1);
      assert src[p..p + n] == [src[p]] + src[p + 1..p + 1 + (n - 1)];
      assert src[m..m + n] == [src[m]] + src[m + 1..m + 1 + (n - 1)];
    }
  }

  lemma DifferMeansCommon(src: Bytes, p: nat, m: nat, limit: nat, n: nat, k: nat)
    requires m < p && p + n <= limit <= |src| && k < n
    requires var a, b := src[m..m + n], src[p..p + n]; a[..k] == b[..k] && a[k] != b[k]
    ensures Common(src, p, m, limit) == k
  {
    assert src[m..m + n][..k] == src[m..m + k] && src[p..p + n][..k] == src[p..p + k];
    SameMeansCommon(src, p, m, limit, k);
    assert src[m..m + n][k] == src[m + k] && src[p..p + n][k] == src[p + k];
  }

  /** LZ4_count: 8 bytes at a time, then 4, 2 and 1. */
  method Count(src: Bytes, p: nat, m: nat, limit: nat) returns (c: nat)
    requires m < p <= limit <= |src|
    ensures c == Common(src, p, m, limit)
  {
    hide Same, Common;
    c := 0;
    while p + c + 7 < limit
      invariant p + c <= limit && c + Common(src, p + c, m + c, limit) == Common(src, p, m, limit)
      decreases limit - c
    {
      SameMeansCommon(src, p + c, m + c, limit, 8);
      if !Same(src, m + c, p + c, 8) {
        c := CountDifferent(src, p, m, limit, c);
        return;
      }
      c := c + 8;
    }
    c := CountTail(src, p, m, limit, c);
  }

  method CountDifferent(src: Bytes, p: nat, m: nat, limit: nat, c: nat) returns (r: nat)
    requires m < p && p + c + 8 <= limit <= |src| && !Same(src, m + c, p + c, 8)
    ensures r == c + Common(src, p + c, m + c, limit)
  {
    var diff := CommonBytes(src[m + c..m + c + 8], src[p + c..p + c + 8]);
    DifferMeansCommon(src, p + c, m + c, limit, 8, diff);
    r := c + diff;
  }

  method CountTail(src: Bytes, p: nat, m: nat, limit: nat, c0: nat) returns (c: nat)
    requires m < p && p + c0 <= limit <= |src| && limit <= p + c0 + 7
    ensures c == c0 + Common(src, p + c0, m + c0, limit)
  {
    hide Same, Common;
    CommonIsExact(src, p + c0, m + c0, limit);
    c := c0;
    if p + c + 3 < limit {
      SameMeansCommon(src, p + c, m + c, limit, 4);
      if Same(src, m + c, p + c, 4) { c := c + 4; }
    }
    if p + c + 1 < limit {
      SameMeansCommon(src, p + c, m + c, limit, 2);
      if Same(src, m + c, p + c, 2) { c := c + 2; }
    }
    if p + c < limit {
      SameMeansCommon(src, p + c, m + c, limit, 1);
      if Same(src, m + c, p + c, 1) { c := c + 1; }
    }
  }

  // ----- The hash table -----

  /** Every entry names a position before `p`. */
  ghost predicate Below(table: array<nat>, p: nat)
    reads table
  {
    forall i :: 0 <= i < table.Length ==> table[i] < p
  }

  ghost predicate Buckets(hash: Hash, size: nat) {
    forall w: Bytes :: hash(w) < size
  }

  /** LZ4_putPositionOnHash: the position survives the narrowing to the entry width. */
  method PutPositionOnHash(p: nat, h: nat, table: array<nat>, tt: TableType)
    requires h < table.Length && p < tt.Modulus() && Below(table, p + 1)
    modifies table
    ensures Below(table, p + 1) && table[..] == old(table[..])[h := p]
  {
    table[h] := p % tt.Modulus();
  }

  /** LZ4_putPosition */
  method PutPosition(src: Bytes, p: nat, table: array<nat>, tt: TableType, hash: Hash, ghost bound: nat,
                     ghost entered: seq<nat>)
    requires Buckets(hash, table.Length) && p + tt.Window() <= |src| && p < tt.Modulus()
    requires p < bound && Below(table, bound) && Holds(table[..], src, tt, hash, entered)
    modifies table
    ensures Below(table, bound) && Holds(table[..], src, tt, hash, entered + [p])
  {
    hide Holds;
    var h := HashPosition(src, p, tt, hash);
    HoldsMore(table[..], src, tt, hash, entered, p);
    ghost var before := table[..];
    table[h] := p % tt.Modulus();
    assert table[..] == before[h := p];
  }

  // ----- Finding a match -----

  /** The sizes for which this table type is used, so that no entry is ever truncated. */
  ghost predicate Supported(n: nat, tt: TableType) {
    LZ4_MIN_LENGTH <= n && if tt.ByU16? then n < LZ4_64KLIMIT else n <= MAX_INPUT_SIZE
  }

  /** A position `m` whose next 4 bytes recur at `ip`, near enough for a 16-bit offset. */
  ghost predicate Candidate(src: Bytes, ip: nat, m: nat) {
    Recurs(src, m, ip) && ip + MFLIMIT <= |src|
  }

  /** The search loop, with steps that grow as it fails. It goes on as long as the entry in the bucket of the
      position is too far back or differs in the four bytes, and stops where it is neither, or where the next
      position would be less than 12 bytes from the end; `entered` is what the table holds, and `misses` counts
      the positions without a match. */
  method FindMatch(src: Bytes, table: array<nat>, tt: TableType, hash: Hash, ip0: nat, acceleration: nat,
                   ghost entered: seq<nat>)
    returns (found: bool, ip: nat, m: nat, ghost misses: nat)
    requires Supported(|src|, tt) && Buckets(hash, table.Length) && acceleration >= 1
    requires 1 <= ip0 <= |src| - MFLIMIT + 1 && Below(table, ip0) && Holds(table[..], src, tt, hash, entered)
    modifies table
    ensures found ==> ip0 <= ip && Candidate(src, ip, m) && Below(table, ip + 1)
    ensures forall j: nat :: j < misses ==> Missed(src, tt, hash, ip0, acceleration, entered, j)
    ensures !found ==> Try(ip0, acceleration, misses + 1) + 12 > |src|
    ensures found ==>
      && ip == Try(ip0, acceleration, misses) && Try(ip0, acceleration, misses + 1) + 12 <= |src|
      && Holds(table[..], src, tt, hash, entered + Tries(ip0, acceleration, misses + 1))
      && Hashable(src, tt, entered + Tries(ip0, acceleration, misses))
      && m == Found(src, tt, hash, entered + Tries(ip0, acceleration, misses), ip)
      && m < ip <= m + 0xFFFF && ip + 12 <= |src| && src[m..m + 4] == src[ip..ip + 4]
  {
    hide Same, Holds, Latest, Tries, Hashable, Missed, Found, Try, Stride, HashPosition, Recurs;
    var mflimit := |src| - MFLIMIT;
    var forwardH: nat, forwardIp: nat := HashPosition(src, ip0, tt, hash), ip0;
    var step, searchMatchNb := 1, acceleration * SKIP_TRIGGER_STEP;
    ip, m, misses := ip0, 0, 0;
    NoTries(ip0, acceleration, entered);
    InTable(src, ip0, tt, hash, table.Length);
    while true
      invariant ip0 <= forwardIp && step == Stride(acceleration, misses)
      invariant searchMatchNb == acceleration * SKIP_TRIGGER_STEP + misses
      invariant forwardIp <= mflimit + 1 && forwardIp == Try(ip0, acceleration, misses)
      invariant forwardH == HashPosition(src, forwardIp, tt, hash) < table.Length
      invariant Below(table, forwardIp) && Holds(table[..], src, tt, hash, entered + Tries(ip0, acceleration, misses))
      invariant forall j: nat :: j < misses ==> Missed(src, tt, hash, ip0, acceleration, entered, j)
      decreases mflimit + 1 - forwardIp
    {
      var h := forwardH;
      ip := forwardIp;
      NextTry(ip0, acceleration, misses);
      forwardIp := forwardIp + step;
      step, searchMatchNb := searchMatchNb / SKIP_TRIGGER_STEP, searchMatchNb + 1;
      if forwardIp > mflimit { return false, ip, m, misses; }
      m := table[h];
      InTable(src, forwardIp, tt, hash, table.Length);
      forwardH := HashPosition(src, forwardIp, tt, hash);
      OneMoreTry(table[..], src, tt, hash, ip0, acceleration, entered, misses);
      PutPositionOnHash(ip, h, table, tt);
      SameFour(src, m, ip);
      if !(tt.ByU32? && m + MAX_DISTANCE < ip) && Same(src, m, ip, 4) {
        IsCandidate(src, m, ip);
        return true, ip, m, misses;
      }
      TryMissed(src, tt, hash, ip0, acceleration, entered, misses, m);
      misses := misses + 1;
    }
  }

  lemma InTable(src: Bytes, p: nat, tt: TableType, hash: Hash, size: nat)
    requires Buckets(hash, size) && p + tt.Window() <= |src|
    ensures HashPosition(src, p, tt, hash) < size
  {}

  lemma IsCandidate(src: Bytes, m: nat, p: nat)
    requires m < p <= m + 0xFFFF && p + 12 <= |src| && src[m..m + 4] == src[p..p + 4]
    ensures Candidate(src, p, m)
  {}

  lemma SameFour(src: Bytes, m: nat, p: nat)
    requires m + 4 <= |src| && p + 4 <= |src|
    ensures Same(src, m, p, 4) <==> src[m..m + 4] == src[p..p + 4]
  {}

  lemma CandidateContinues(src: Bytes, ip: nat, m: nat)
    requires Candidate(src, ip, m)
    ensures m < ip
    ensures Continues(src, ip, ip + MINMATCH, ip - m) && ip - m <= MAX_DISTANCE && ip + MFLIMIT <= |src|
  {
    forall k | ip <= k < ip + 4 ensures src[k] == src[k - (ip - m)] {
      assert src[ip..ip + 4][k - ip] == src[m..m + 4][k - ip];
    }
  }

  /** Extends a match backwards over literals not yet emitted. */
  method CatchUp(src: Bytes, anchor: nat, ip0: nat, m0: nat) returns (ip: nat, m: nat)
    requires anchor <= ip0 && Candidate(src, ip0, m0)
    ensures anchor <= ip <= ip0 && m < ip && ip - m == ip0 - m0
    ensures Continues(src, ip, ip + MINMATCH, ip - m) && Continues(src, ip, ip0 + MINMATCH, ip - m)
    ensures Leftmost(src, anchor, ip, m) && ip - m <= MAX_DISTANCE && ip0 + MFLIMIT <= |src|
  {
    ip, m := ip0, m0;
    CandidateContinues(src, ip, m);
    while ip > anchor && m > 0 && src[ip - 1] == src[m - 1]
      invariant anchor <= ip <= ip0 && m < ip && ip - m == ip0 - m0
      invariant Continues(src, ip, ip0 + MINMATCH, ip - m)
    {
      ip, m := ip - 1, m - 1;
    }
  }

  // ----- Writing a sequence -----

  lemma {:induction false} ExtensionIs(n: nat, s: Bytes)
    requires |s| == n / 255 + 1
    requires (forall i :: 0 <= i < n / 255 ==> s[i] == 255) && s[n / 255] == n % 255
    ensures s == Extension(n)
    decreases n
  {
    if n < 255 {
      assert s == [n];
    } else {
      assert (n - 255) / 255 == n / 255 - 1 && (n - 255) % 255 == n % 255;
      ExtensionIs(n - 255, s[1..]);
      assert s == [s[0]] + s[1..];
    }
  }

  /** The length bytes of a literal run: 255 per byte while at least that much is left. */
  method WriteLiteralLength(n: nat, dst: array<Byte>, op0: nat) returns (op: nat)
    requires op0 + n / 255 + 1 <= dst.Length
    modifies dst
    ensures op == op0 + n / 255 + 1
    ensures dst[..op] == old(dst[..op0]) + Extension(n)
  {
    op := op0;
    var len := n;
    while len >= 255
      invariant op0 <= op && op - op0 + len / 255 == n / 255 && len % 255 == n % 255
      invariant forall i :: op0 <= i < op ==> dst[i] == 255
      invariant forall i :: 0 <= i < op0 ==> dst[i] == old(dst[i])
    {
      dst[op] := 255;
      op, len := op + 1, len - 255;
    }
    dst[op] := len;
    op := op + 1;
    ExtensionIs(n, dst[op0..op]);
    assert dst[..op] == dst[..op0] + dst[op0..op];
    assert dst[..op0] == old(dst[..op0]);
  }

  method WriteFullWord(dst: array<Byte>, op: nat)
    requires op + 4 <= dst.Length
    modifies dst
    ensures forall i :: op <= i < op + 4 ==> dst[i] == 255
    ensures forall i :: 0 <= i < op ==> dst[i] == old(dst[i])
  {
    dst[op], dst[op + 1], dst[op + 2], dst[op + 3] := 255, 255, 255, 255;
  }

  /** The length bytes of a match, written four 0xFF at a time. */
  method WriteMatchLength(n: nat, dst: array<Byte>, op0: nat) returns (op: nat)
    requires op0 + n / 255 + 4 <= dst.Length
    modifies dst
    ensures op == op0 + n / 255 + 1
    ensures dst[..op] == old(dst[..op0]) + Extension(n)
  {
    op := op0;
    var matchCode := n;
    WriteFullWord(dst, op);
    while matchCode >= 4 * 255
      invariant op0 <= op && op - op0 + matchCode / 255 == n / 255 && matchCode % 255 == n % 255
      invariant forall i :: op0 <= i < op + 4 ==> dst[i] == 255
      invariant forall i :: 0 <= i < op0 ==> dst[i] == old(dst[i])
    {
      op := op + 4;
      WriteFullWord(dst, op);
      matchCode := matchCode - 4 * 255;
    }
    op := op + matchCode / 255;
    dst[op] := matchCode % 255;
    op := op + 1;
    ExtensionIs(n, dst[op0..op]);
    assert dst[..op] == dst[..op0] + dst[op0..op];
    assert dst[..op0] == old(dst[..op0]);
  }

  /** Token and literals; the match half of the token is filled in later. */
  method EncodeLiterals(src: Bytes, anchor: nat, ip: nat, dst: array<Byte>, token: nat) returns (op: nat)
    requires anchor <= ip && ip + 8 <= |src|
    requires token + 1 + |LengthBytes(ip - anchor)| + (ip - anchor) + 8 <= dst.Length
    modifies dst
    ensures op == token + 1 + |LengthBytes(ip - anchor)| + (ip - anchor)
    ensures dst[..op] == old(dst[..token]) + [Token(ip - anchor, 0)] + LengthBytes(ip - anchor) + src[anchor..ip]
  {
    hide Extension, LengthBytes;
    var litLength := ip - anchor;
    LengthBytesSize(litLength);
    ShortLength(litLength);
    op := token + 1;
    dst[token] := Nibble(litLength) * 16;
    assert dst[..op] == old(dst[..token]) + [Token(litLength, 0)];
    if litLength >= RUN_MASK { op := WriteLiteralLength(litLength - RUN_MASK, dst, op); }
    ghost var sofar := dst[..op];
    assert sofar == old(dst[..token]) + [Token(litLength, 0)] + LengthBytes(litLength);
    WildCopyFrom(src, anchor, dst, op, litLength);
    op := op + litLength;
  }

  lemma LeftmostAtAnchor(src: Bytes, anchor: nat, m: nat)
    requires m < anchor <= |src|
    ensures Leftmost(src, anchor, anchor, m)
  {}

  /** So a match that was extended backwards still ends after the position where it was found. */
  lemma MaximalReaches(src: Bytes, here: nat, found: nat, ip: nat, offset: nat)
    requires offset <= here <= found && here <= ip && found + MFLIMIT <= |src| && ip + LASTLITERALS <= |src|
    requires offset > 0 && Continues(src, here, found + MINMATCH, offset) && Maximal(src, ip, offset)
    ensures found + MINMATCH <= ip
  {}

  /** Offset and match length; adds the match half of the token at `token`. */
  method EncodeMatch(src: Bytes, ip0: nat, m: nat, dst: array<Byte>, op0: nat, token: nat)
    returns (ip: nat, op: nat)
    requires m < ip0 && ip0 - m <= MAX_DISTANCE && ip0 + MFLIMIT <= |src|
    requires Continues(src, ip0, ip0 + MINMATCH, ip0 - m)
    requires token < op0 <= dst.Length && dst[token] % 16 == 0
    requires 255 * (op0 + 6) + (|src| - ip0) <= 255 * dst.Length
    modifies dst
    ensures ip0 + MINMATCH <= ip && ip + LASTLITERALS <= |src|
    ensures Continues(src, ip0, ip, ip0 - m) && Maximal(src, ip, ip0 - m)
    ensures var code := ip - ip0 - MINMATCH;
      && op == op0 + 2 + |LengthBytes(code)|
      && op <= dst.Length
      && dst[..op] == old(dst[..op0][token := dst[token] + Nibble(code)])
                      + LittleEndian16(ip0 - m) + LengthBytes(code)
  {
    hide Extension, Continues, LengthBytes, Common;
    var matchlimit := |src| - LASTLITERALS;
    dst[op0], dst[op0 + 1] := (ip0 - m) % 256, (ip0 - m) / 256 % 256;
    op := op0 + 2;
    assert dst[..op] == old(dst[..op0]) + LittleEndian16(ip0 - m);
    var matchCode := Count(src, ip0 + MINMATCH, m + MINMATCH, matchlimit);
    WholeMatch(src, ip0, m, matchlimit);
    ip := ip0 + MINMATCH + matchCode;
    LengthBytesSize(matchCode);
    dst[token] := dst[token] + Nibble(matchCode);
    assert dst[..op] == old(dst[..op0][token := dst[token] + Nibble(matchCode)]) + LittleEndian16(ip0 - m);
    ShortLength(matchCode);
    if matchCode >= ML_MASK { op := WriteMatchLength(matchCode - ML_MASK, dst, op); }
  }

  lemma ShortLength(n: nat)
    ensures LengthBytes(n) == if n < 15 then [] else Extension(n - 15)
  {}

  lemma WholeMatch(src: Bytes, ip: nat, m: nat, limit: nat)
    requires m < ip && ip + MINMATCH <= limit <= |src| && Continues(src, ip, ip + MINMATCH, ip - m)
    ensures var c := MINMATCH + Common(src, ip + MINMATCH, m + MINMATCH, limit);
            ip + c <= limit && Continues(src, ip, ip + c, ip - m) && (ip + c == limit || src[ip + c] != src[m + c])
  {
    CommonIsExact(src, ip + MINMATCH, m + MINMATCH, limit);
  }

  /** The bytes of token, literals, offset and lengths make up the encoding of the sequence. */
  lemma AssembleSequence(before: Bytes, s: Sequence)
    requires s.len >= MINMATCH
    ensures var code := s.len - MINMATCH;
      var head := before + [Token(|s.lits|, 0)] + LengthBytes(|s.lits|) + s.lits;
      head[|before| := Token(|s.lits|, 0) + Nibble(code)] + LittleEndian16(s.offset) + LengthBytes(code)
        == before + EncodeSequence(s)
  {
    hide LengthBytes, LittleEndian16;
    var code := s.len - MINMATCH;
    var head := before + [Token(|s.lits|, 0)] + LengthBytes(|s.lits|) + s.lits;
    assert head[|before| := Token(|s.lits|, Nibble(code))]
        == before + [Token(|s.lits|, Nibble(code))] + LengthBytes(|s.lits|) + s.lits;
  }

  // ----- The compressor -----

  /** Room left in the output once `ss` has been written: the size check the code leaves out. */
  lemma RoomForSequence(n: nat, cap: nat, op: nat, anchor: nat, ip: nat)
    requires cap >= n + n / 255 + 16 && 255 * op <= 256 * anchor && anchor <= ip && ip + MFLIMIT <= n
    ensures op + 1 + |LengthBytes(ip - anchor)| + (ip - anchor) + 8 <= cap
    ensures 255 * (op + 1 + |LengthBytes(ip - anchor)| + (ip - anchor) + 6) + (n - ip) <= 255 * cap
  {
    LengthBytesSize(ip - anchor);
    assert 255 * cap >= 256 * n + 15 * 255;
  }

  /** Token and literals, or the token alone when there are no literals. */
  method EmitLiterals(src: Bytes, anchor: nat, ip: nat, dst: array<Byte>, token: nat, literals: bool) returns (op: nat)
    requires anchor <= ip && ip + 8 <= |src| && (!literals ==> ip == anchor)
    requires token + 1 + |LengthBytes(ip - anchor)| + (ip - anchor) + 8 <= dst.Length
    modifies dst
    ensures op == token + 1 + |LengthBytes(ip - anchor)| + (ip - anchor)
    ensures dst[..op] == old(dst[..token]) + [Token(ip - anchor, 0)] + LengthBytes(ip - anchor) + src[anchor..ip]
  {
    hide LengthBytes;
    if literals {
      op := EncodeLiterals(src, anchor, ip, dst, token);
    } else {
      LengthBytesSize(0);
      op := token + 1;
      dst[token] := 0;
      assert src[anchor..ip] == [];
    }
  }

  /** One whole sequence; with `literals` false, the zero-literal form of a match found at once. */
  method EmitSequence(src: Bytes, anchor: nat, ip0: nat, m: nat, dst: array<Byte>, token: nat, literals: bool,
                      ghost ss: seq<Sequence>)
    returns (ip: nat, op: nat, ghost ss': seq<Sequence>)
    requires token <= dst.Length && Parsed(src, ss, anchor, dst[..token])
    requires dst.Length >= |src| + |src| / 255 + 16
    requires anchor <= ip0 && m < ip0 && ip0 - m <= MAX_DISTANCE && ip0 + MFLIMIT <= |src|
    requires Continues(src, ip0, ip0 + MINMATCH, ip0 - m)
    requires !literals ==> ip0 == anchor
    requires AllMaximal(src, ss, anchor) && Leftmost(src, anchor, ip0, m)
    modifies dst
    ensures ip0 + MINMATCH <= ip && ip + LASTLITERALS <= |src| && Maximal(src, ip, ip0 - m)
    ensures op <= dst.Length && Parsed(src, ss', ip, dst[..op]) && AllMaximal(src, ss', ip)
    ensures ss' == ss + [Sequence(src[anchor..ip0], ip0 - m, ip - ip0)]
  {
    hide AllMaximal, Parsed, LengthBytes, LittleEndian16, EncodeSequence, Continues, Maximal, Leftmost;
    ghost var before := dst[..token];
    ParsedSize(src, ss, anchor, before);
    RoomForSequence(|src|, dst.Length, token, anchor, ip0);
    op := EmitLiterals(src, anchor, ip0, dst, token, literals);
    ghost var head := dst[..op];
    assert head[token] == Token(ip0 - anchor, 0) && head[token] % 16 == 0;
    ip, op := EncodeMatch(src, ip0, m, dst, op, token);
    ghost var s := Sequence(src[anchor..ip0], ip0 - m, ip - ip0);
    AssembleSequence(before, s);
    ParsedMore(src, ss, anchor, before, ip0, m, ip - ip0);
    OneMoreMaximal(src, ss, anchor, ip0, m, ip);
    ss' := ss + [s];
  }

  lemma NothingMaximal(src: Bytes)
    ensures AllMaximal(src, [], 0)
  {}

  lemma ParsedSize(src: Bytes, ss: seq<Sequence>, anchor: nat, written: Bytes)
    requires Parsed(src, ss, anchor, written)
    ensures 255 * |written| <= 256 * anchor && anchor <= |src|
  {}

  /** The last literals. */
  method EncodeLastLiterals(src: Bytes, anchor: nat, dst: array<Byte>, op0: nat) returns (op: nat)
    requires anchor <= |src| && op0 + |EncodeLast(src[anchor..], 0)| <= dst.Length
    modifies dst
    ensures op == op0 + |EncodeLast(src[anchor..], 0)|
    ensures dst[..op] == old(dst[..op0]) + EncodeLast(src[anchor..], 0)
  {
    hide Extension, LengthBytes;
    var lastRun := |src| - anchor;
    LengthBytesSize(lastRun);
    ShortLength(lastRun);
    op := op0 + 1;
    dst[op0] := Nibble(lastRun) * 16;
    assert dst[..op] == old(dst[..op0]) + [Token(lastRun, 0)];
    if lastRun >= RUN_MASK { op := WriteLiteralLength(lastRun - RUN_MASK, dst, op); }
    ghost var sofar := dst[..op];
    assert sofar == old(dst[..op0]) + [Token(lastRun, 0)] + LengthBytes(lastRun);
    MemcpyFrom(src, anchor, dst, op, lastRun);
    op := op + lastRun;
    assert src[anchor..] == src[anchor..anchor + lastRun];
    AssembleLast(old(dst[..op0]), src[anchor..]);
  }

  lemma AssembleLast(before: Bytes, last: Bytes)
    ensures before + [Token(|last|, 0)] + LengthBytes(|last|) + last == before + EncodeLast(last, 0)
  {
    hide LengthBytes;
    var a, b := [Token(|last|, 0)], LengthBytes(|last|);
    assert before + a + b + last == before + (a + b + last);
  }

  /** Enters two positions near the end of a match and looks up whether another match starts there. */
  method TestNextPosition(src: Bytes, ip: nat, table: array<nat>, tt: TableType, hash: Hash,
                          ghost entered: seq<nat>)
    returns (searching: bool, m: nat)
    requires Supported(|src|, tt) && Buckets(hash, table.Length)
    requires 2 <= ip && ip + MFLIMIT <= |src| && Below(table, ip) && Holds(table[..], src, tt, hash, entered)
    modifies table
    ensures Below(table, ip + 1) && Holds(table[..], src, tt, hash, entered + [ip - 2] + [ip])
    ensures (!searching <==> Candidate(src, ip, m)) && (!searching <==> Recurs(src, m, ip))
    ensures Hashable(src, tt, entered + [ip - 2]) && m == Found(src, tt, hash, entered + [ip - 2], ip)
  {
    hide Same, Latest, Holds, Found;
    PutPosition(src, ip - 2, table, tt, hash, ip, entered);
    LooksUp(table[..], src, tt, hash, entered + [ip - 2], ip);
    m := table[HashPosition(src, ip, tt, hash)];
    PutPosition(src, ip, table, tt, hash, ip + 1, entered + [ip - 2]);
    SameFour(src, m, ip);
    searching := !(m + MAX_DISTANCE >= ip && Same(src, m, ip, 4));
  }

  /** The match for the next sequence: the one right at the anchor, or the one a search finds, extended
      backwards. */
  method NextMatch(src: Bytes, table: array<nat>, tt: TableType, hash: Hash, acceleration: nat, anchor: nat,
                   ip0: nat, m0: nat, searching: bool, ghost entered: seq<nat>)
    returns (ok: bool, ip: nat, m: nat, ghost look: Look)
    requires Supported(|src|, tt) && Buckets(hash, table.Length) && acceleration >= 1
    requires if searching then ip0 <= |src| - MFLIMIT + 1 && Below(table, ip0)
             else Candidate(src, ip0, m0) && Below(table, ip0 + 1)
    requires Looking(table[..], src, tt, hash, acceleration, entered, anchor, ip0, m0, searching)
    modifies table
    ensures !ok ==> Exhausted(src, tt, hash, acceleration, entered, anchor)
    ensures ok ==>
      && Chosen(src, tt, hash, acceleration, look) && look.entered == entered && look.anchor == anchor
      && anchor <= ip <= look.at && ip0 <= look.at && m < ip && ip - m == look.at - look.m
      && ip - m <= MAX_DISTANCE && look.at + MFLIMIT <= |src|
      && Continues(src, ip, ip + MINMATCH, ip - m) && Continues(src, ip, look.at + MINMATCH, ip - m)
      && Leftmost(src, anchor, ip, m) && (!searching ==> ip == anchor)
      && Below(table, look.at + 1)
      && Holds(table[..], src, tt, hash, Before(entered, anchor, acceleration, look.misses + 1))
  {
    hide Continues, Same, Leftmost, Exhausted, Looking, Chosen, Holds, Latest, Before, Missed, Hashable, Found, Tries,
      Try, Recurs, Candidate, Misses, First, Place, Places, Reach, Open;
    ip, m, look := ip0, m0, Look(entered, anchor, 0, ip0, m0);
    if searching {
      ghost var start, misses := Before(entered, anchor, acceleration, First(anchor)), 0;
      LookingSearches(table[..], src, tt, hash, acceleration, entered, anchor, ip, m);
      ok, ip, m, misses := FindMatch(src, table, tt, hash, ip, acceleration, start);
      SearchEnds(src, tt, hash, acceleration, entered, anchor, anchor + 1, start, misses, ok, ip, m);
      if !ok { return; }
      look := Look(entered, anchor, First(anchor) + misses, ip, m);
      ip, m := CatchUp(src, anchor, ip, m);
    } else {
      ok := true;
      LookingAtOnce(table[..], src, tt, hash, acceleration, entered, anchor, ip, m);
      CandidateContinues(src, ip, m);
      LeftmostAtAnchor(src, anchor, m);
    }
  }

  /** The main loop: parses the input greedily, until fewer than 13 bytes are left. Every match is the one found
      first, and it stops when there is no further one. */
  method CompressSequences(src: Bytes, dst: array<Byte>, table: array<nat>, tt: TableType, hash: Hash,
                           acceleration: nat)
    returns (anchor: nat, op: nat, ghost ss: seq<Sequence>, ghost looks: seq<Look>, ghost entered: seq<nat>)
    requires Supported(|src|, tt) && Buckets(hash, table.Length) && acceleration >= 1
    requires dst.Length >= |src| + |src| / 255 + 16
    requires dst as object != table as object && forall i :: 0 <= i < table.Length ==> table[i] == 0
    modifies dst, table
    ensures op <= dst.Length && Parsed(src, ss, anchor, dst[..op]) && AllMaximal(src, ss, anchor)
    ensures Traced(src, tt, hash, acceleration, ss, looks, anchor, entered)
    ensures Exhausted(src, tt, hash, acceleration, entered, anchor)
  {
    hide Parsed, Continues, Same, AllMaximal, Maximal, Leftmost, Traced, Exhausted, Looking, Chosen, Holds, Latest,
      Before, Hashable, Found, Recurs, Candidate;
    var mflimit := |src| - MFLIMIT;
    HoldsNothing(table[..], src, tt, hash);
    PutPosition(src, 0, table, tt, hash, 1, []);
    var ip: nat, m: nat, searching := 1, 0, true;
    anchor, op, ss, looks, entered := 0, 0, [], [], [];
    NothingParsed(src);
    NothingMaximal(src);
    LookingStarts(table[..], src, tt, hash, acceleration);
    assert dst[..0] == [];
    while true
      invariant op <= dst.Length && Parsed(src, ss, anchor, dst[..op]) && AllMaximal(src, ss, anchor)
      invariant 1 <= ip && anchor <= ip
      invariant if searching then ip <= mflimit + 1 && Below(table, ip)
                else ip == anchor && Candidate(src, ip, m) && Below(table, ip + 1)
      invariant Traced(src, tt, hash, acceleration, ss, looks, anchor, entered)
      invariant Looking(table[..], src, tt, hash, acceleration, entered, anchor, ip, m, searching)
      decreases |src| - ip
    {
      ghost var look, seqs;
      var ok;
      ok, ip, m, look := NextMatch(src, table, tt, hash, acceleration, anchor, ip, m, searching, entered);
      if !ok { return; }
      ghost var here := ip;
      seqs := ss;
      ip, op, ss := EmitSequence(src, anchor, ip, m, dst, op, searching, ss);
      MaximalReaches(src, here, look.at, ip, here - m);
      ghost var s := Sequence(src[anchor..here], here - m, ip - here);
      OneMoreTraced(src, tt, hash, acceleration, seqs, looks, s, look, ip);
      looks, entered := looks + [look], Before(entered, anchor, acceleration, look.misses + 1);
      anchor := ip;
      if ip > mflimit {
        EndExhausts(src, tt, hash, acceleration, entered, anchor);
        return;
      }
      searching, m := TestNextPosition(src, ip, table, tt, hash, entered);
      TestedNext(table[..], src, tt, hash, acceleration, entered, ip, m, searching);
      if searching { ip := ip + 1; }
    }
  }

  /** LZ4_compress_generic: the result is 0 exactly for sizes this table type does not serve, and
      otherwise the length of a compression of the input. */
  method CompressGeneric(src: Bytes, dst: array<Byte>, table: array<nat>, tt: TableType, hash: Hash,
                         acceleration: nat)
    returns (r: nat, ghost b: Block)
    requires Buckets(hash, table.Length) && acceleration >= 1
    requires dst.Length >= |src| + |src| / 255 + 16
    requires dst as object != table as object && forall i :: 0 <= i < table.Length ==> table[i] == 0
    modifies dst, table
    ensures r == 0 <==> |src| > MAX_INPUT_SIZE || (tt.ByU16? && |src| >= LZ4_64KLIMIT)
    ensures r > 0 ==> r + 14 <= CompressBound(|src|) && CompressionOf(src, b, dst[..r])
    ensures r > 0 ==> |b.last| <= |src| && AllMaximal(src, b.seqs, |src| - |b.last|)
    ensures r > 0 ==> FirstFound(src, tt, hash, acceleration, b)
  {
    hide AllMaximal, Parsed, CompressionOf, EncodeLast, FirstFound, Traced, Exhausted;
    b := Block([], [], 0);
    if |src| > MAX_INPUT_SIZE { return 0, b; }
    if tt.ByU16? && |src| >= LZ4_64KLIMIT { return 0, b; }
    var anchor, op := 0, 0;
    ghost var ss := [];
    NothingMaximal(src);
    if |src| < LZ4_MIN_LENGTH {
      NothingParsed(src);
      NothingIsFound(src, tt, hash, acceleration);
      assert dst[..0] == [];
    } else {
      ghost var looks, entered;
      anchor, op, ss, looks, entered := CompressSequences(src, dst, table, tt, hash, acceleration);
      ParsedSize(src, ss, anchor, dst[..op]);
      ItIsFound(src, tt, hash, acceleration, ss, anchor, looks, entered);
    }
    ParsedToTheEnd(src, ss, anchor, dst[..op]);
    ParsedSize(src, ss, anchor, dst[..op]);
    r := EncodeLastLiterals(src, anchor, dst, op);
    SomethingWritten(src[anchor..]);
    b := Block(ss, src[anchor..], 0);
  }

  lemma SomethingWritten(last: Bytes)
    ensures |EncodeLast(last, 0)| >= 1
  {}

  /** 1 << (LZ4_HASHLOG + 1) and 1 << LZ4_HASHLOG */
  const U16_BUCKETS: nat := 0x2000
  const U32_BUCKETS: nat := 0x1000

  /** LZ4_compress_default, given room for the worst case: a fresh table, and entries as narrow as
      the input allows. */
  method CompressDefault(src: Bytes, dst: array<Byte>, hash4: Hash, hash5: Hash) returns (r: nat, ghost b: Block)
    requires Buckets(hash4, U16_BUCKETS) && Buckets(hash5, U32_BUCKETS)
    requires |src| <= MAX_INPUT_SIZE && dst.Length >= CompressBound(|src|)
    modifies dst
    ensures 0 < r && r + 14 <= CompressBound(|src|) && CompressionOf(src, b, dst[..r])
    ensures |b.last| <= |src| && AllMaximal(src, b.seqs, |src| - |b.last|)
    ensures FirstFound(src, if |src| < 0x1_000B then ByU16 else ByU32, if |src| < 0x1_000B then hash4 else hash5, 1, b)
    ensures |src| >= 14 && (forall i :: 0 <= i < |src| ==> src[i] == src[0]) ==>
      r == 10 + if |src| < 25 then 0 else (|src| - 25) / 255 + 1
  {
    hide CompressionOf, AllMaximal, FirstFound;
    if |src| < LZ4_64KLIMIT {
      var table := new nat[U16_BUCKETS](_ => 0);
      r, b := CompressGeneric(src, dst, table, ByU16, hash4, 1);
    } else {
      var table := new nat[U32_BUCKETS](_ => 0);
      r, b := CompressGeneric(src, dst, table, ByU32, hash5, 1);
    }
    if |src| >= 14 && forall i :: 0 <= i < |src| ==> src[i] == src[0] {
      OneByteRepeated(src, if |src| < LZ4_64KLIMIT then ByU16 else ByU32,
                      if |src| < LZ4_64KLIMIT then hash4 else hash5, 1, b, dst[..r]);
    }
  }
}

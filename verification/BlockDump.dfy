/** A block dump as it is written, and that reading it finds what was written. */
module BlockDump {
  import opened Wrappers
  import opened Lz4Format
  import opened Integers
  import opened BlockFile

  /** A varint as it is written: one byte up to 249, else a prefix that gives the width. */
  function VarInt(n: nat): Bytes
    requires n < 0x1_0000_0000_0000_0000
  {
    if n <= 249 then [n]
    else if n < 0x1_0000 then [250] + LittleEndian(n, 2)
    else if n < 0x1_0000_0000 then [251] + LittleEndian(n, 4)
    else [252] + LittleEndian(n, 8)
  }

  lemma IntReadsBack(a: Bytes, n: nat, k: nat, b: Bytes)
    requires n < Pow256(k)
    ensures ReadInt(a + LittleEndian(n, k) + b, |a|, k) == Done((n, |a| + k))
  {
    hide ReadLE, LittleEndian;
    ReadsBack(n, k);
    assert (a + LittleEndian(n, k) + b)[|a|..|a| + k] == LittleEndian(n, k);
  }

  /** Wherever it is written it is read back, and reading goes on behind it. */
  lemma VarIntReadsBack(a: Bytes, n: nat, b: Bytes)
    requires n < 0x1_0000_0000_0000_0000
    ensures ReadVarInt(a + VarInt(n) + b, |a|) == Done((n, |a| + |VarInt(n)|))
  {
    hide LittleEndian, ReadInt;
    if n > 249 {
      var k := if n < 0x1_0000 then 2 else if n < 0x1_0000_0000 then 4 else 8;
      var prefix: Byte := if n < 0x1_0000 then 250 else if n < 0x1_0000_0000 then 251 else 252;
      assert VarInt(n) == [prefix] + LittleEndian(n, k);
      assert n < Pow256(k) by {
        assert Pow256(2) == 0x1_0000;
        assert Pow256(4) == 0x1_0000 * Pow256(2);
        EightBytes();
      }
      assert a + VarInt(n) + b == (a + [prefix]) + LittleEndian(n, k) + b;
      IntReadsBack(a + [prefix], n, k, b);
    }
  }

  // ----- Transactions -----

  /** Transactions that fit their size field and that the parser takes whole. */
  ghost predicate Parseable(ts: seq<Bytes>, parse: TxParser) {
    Sized(ts) && forall i: nat :: i < |ts| ==> parse(ts[i]) == Some(|ts[i]|)
  }

  predicate Sized(ts: seq<Bytes>) {
    forall i: nat :: i < |ts| ==> 0 < |ts[i]| < 0x1_0000_0000_0000_0000
  }

  function Transactions(ts: seq<Bytes>): Bytes
    requires Sized(ts)
  {
    if ts == [] then [] else VarInt(|ts[0]|) + ts[0] + Transactions(ts[1..])
  }

  /** Where each of them starts when the first one starts at `at`. */
  function Places(ts: seq<Bytes>, at: nat): (r: seq<nat>)
    requires Sized(ts)
    ensures |r| == |ts|
  {
    if ts == [] then [] else [at] + Places(ts[1..], at + |VarInt(|ts[0]|)| + |ts[0]|)
  }

  /** That is behind those before it, and there is its size and then it itself. */
  lemma {:induction false} PlacesAre(ts: seq<Bytes>, before: Bytes, after: Bytes, i: nat)
    requires Sized(ts) && i < |ts|
    ensures var dump, at, tx := before + Transactions(ts) + after, Places(ts, |before|)[i], VarInt(|ts[i]|) + ts[i];
      && at == |before| + |Transactions(ts[..i])| && at + |tx| <= |dump| && dump[at..at + |tx|] == tx
  {
    hide VarInt;
    var first := VarInt(|ts[0]|) + ts[0];
    assert before + Transactions(ts) + after == (before + first) + Transactions(ts[1..]) + after;
    if i > 0 {
      PlacesAre(ts[1..], before + first, after, i - 1);
      assert ts[..i][1..] == ts[1..][..i - 1];
    }
  }

  /** A transaction that is written is read back with its size, and reading goes on behind it. */
  lemma TransactionReadsBack(before: Bytes, tx: Bytes, after: Bytes, parse: TxParser)
    requires 0 < |tx| < 0x1_0000_0000_0000_0000 && parse(tx) == Some(|tx|)
    ensures ReadTransaction(before + VarInt(|tx|) + tx + after, |before|, parse)
         == Done((|tx|, |before| + |VarInt(|tx|)| + |tx|))
  {
    hide ReadVarInt, VarInt;
    var dump, start := before + VarInt(|tx|) + tx + after, |before| + |VarInt(|tx|)|;
    VarIntReadsBack(before, |tx|, tx + after);
    assert dump == before + VarInt(|tx|) + (tx + after);
    assert dump[start..start + |tx|] == tx;
  }

  lemma {:induction false} WrittenAreFound(before: Bytes, ts: seq<Bytes>, parse: TxParser)
    requires Parseable(ts, parse)
    ensures TxOffsets(before + Transactions(ts) + [0], |before|, parse) == Done(Places(ts, |before|))
    decreases |ts|
  {
    hide VarInt, ReadTransaction;
    if ts == [] {
      EndIsFound(before, parse);
    } else {
      var tx, frame, rest := ts[0], VarInt(|ts[0]|) + ts[0], Transactions(ts[1..]) + [0];
      TransactionReadsBack(before, tx, rest, parse);
      assert before + Transactions(ts) + [0] == before + VarInt(|tx|) + tx + rest;
      WrittenAreFound(before + frame, ts[1..], parse);
      assert before + Transactions(ts) + [0] == (before + frame) + Transactions(ts[1..]) + [0];
    }
  }

  lemma EndIsFound(before: Bytes, parse: TxParser)
    ensures TxOffsets(before + [] + [0], |before|, parse) == Done([])
  {
    assert (before + [] + [0])[|before|] == 0;
  }

  /** A dump of an 80-byte header, any transactions and a final 0 is well formed, and exactly these transactions
      are found in it, each where it was written. */
  lemma WrittenDumpIsRead(header: Bytes, ts: seq<Bytes>, parse: TxParser) returns (offsets: seq<nat>)
    requires |header| == 80 && Parseable(ts, parse)
    requires |header + Transactions(ts) + [0]| < 0x1_0000_0000_0000_0000 - 8
    ensures var dump := header + Transactions(ts) + [0];
      && WellFormed(dump, parse) && TxOffsets(dump, 80, parse) == Done(offsets) && |offsets| == |ts|
      && forall i: nat :: i < |ts| ==>
           var tx := VarInt(|ts[i]|) + ts[i];
           && offsets[i] == 80 + |Transactions(ts[..i])| && offsets[i] + |tx| <= |dump|
           && dump[offsets[i]..offsets[i] + |tx|] == tx
  {
    hide VarInt, TxOffsets, Transactions;
    WrittenAreFound(header, ts, parse);
    offsets := Places(ts, 80);
    forall i: nat | i < |ts|
      ensures var dump, tx := header + Transactions(ts) + [0], VarInt(|ts[i]|) + ts[i];
        && offsets[i] == 80 + |Transactions(ts[..i])| && offsets[i] + |tx| <= |dump|
        && dump[offsets[i]..offsets[i] + |tx|] == tx
    {
      PlacesAre(ts, header, [0], i);
    }
  }

  /** A block written like that and framed by its size is read from the file whole, with the positions of its
      transactions in the file. */
  lemma WrittenBlockIsRead(before: Bytes, header: Bytes, ts: seq<Bytes>, after: Bytes, parse: TxParser)
    requires |header| == 80 && Parseable(ts, parse)
    requires |before + LittleEndian(|header + Transactions(ts) + [0]|, 8) + (header + Transactions(ts) + [0]) + after|
          < 0x1_0000_0000_0000_0000
    ensures var dump := header + Transactions(ts) + [0];
      var file := before + LittleEndian(|dump|, 8) + dump + after;
      var (next, r) := NextBlock(file, |before|, parse);
      && next == |before| + 8 + |dump| && r.Done? && r.value.Some?
      && var b := r.value.value;
         && b.dump == dump && b.pos == |before| && b.endBlockPos == next && |b.txPos| == |ts|
         && forall i: nat :: i < |ts| ==>
              var tx := VarInt(|ts[i]|) + ts[i];
              && b.txPos[i] == |before| + 88 + |Transactions(ts[..i])| && b.txPos[i] + |tx| <= |file|
              && file[b.txPos[i]..b.txPos[i] + |tx|] == tx
  {
    hide VarInt, TxOffsets, Transactions, NextBlock, LittleEndian, WellFormed;
    var dump := header + Transactions(ts) + [0];
    var file := before + LittleEndian(|dump|, 8) + dump + after;
    var offsets := WrittenDumpIsRead(header, ts, parse);
    assert file[|before|..|before| + 8 + |dump|] == Frame(dump);
    CompleteFrame(file, |before|, dump, parse);
    forall i: nat | i < |ts|
      ensures var at, tx := |before| + 8 + offsets[i], VarInt(|ts[i]|) + ts[i];
        at + |tx| <= |file| && file[at..at + |tx|] == tx
    {
      var at, tx := |before| + 8 + offsets[i], VarInt(|ts[i]|) + ts[i];
      assert file[at..at + |tx|] == dump[offsets[i]..offsets[i] + |tx|];
    }
  }

  /** And any of these transactions can be read by its position alone, if it has at least seven bytes: the code
      asks for eight in the file. */
  lemma WrittenTransactionIsRead(file: Bytes, at: nat, tx: Bytes, parse: TxParser)
    requires 7 <= |tx| < 0x1_0000_0000_0000_0000 && parse(tx) == Some(|tx|)
    requires at <= |file| && VarInt(|tx|) + tx <= file[at..]
    ensures OneTransaction(file, at, parse) == Done(Some(tx))
  {
    hide ReadVarInt, ReadTransaction, VarInt, Window;
    var size := VarInt(|tx|);
    VarIntSize(|tx|);
    assert |file| - at >= 8 by { assert |size + tx| <= |file[at..]|; }
    assert size <= size + tx;
    WindowBegins(file, at, 9, size);
    SizeIsRead(Window(file, at, 9), |tx|);
    WindowBegins(file, at, |tx| + 16, size + tx);
    TransactionIsRead(Window(file, at, |tx| + 16), tx, parse);
  }

  lemma SizeIsRead(s: Bytes, n: nat)
    requires n < 0x1_0000_0000_0000_0000 && VarInt(n) <= s
    ensures ReadVarInt(s, 0) == Done((n, |VarInt(n)|))
  {
    hide ReadVarInt, VarInt;
    assert s == [] + VarInt(n) + s[|VarInt(n)|..];
    VarIntReadsBack([], n, s[|VarInt(n)|..]);
  }

  lemma TransactionIsRead(s: Bytes, tx: Bytes, parse: TxParser)
    requires 0 < |tx| < 0x1_0000_0000_0000_0000 && parse(tx) == Some(|tx|) && VarInt(|tx|) + tx <= s
    ensures ReadTransaction(s, 0, parse) == Done((|tx|, |VarInt(|tx|)| + |tx|))
    ensures s[|VarInt(|tx|)|..|VarInt(|tx|)| + |tx|] == tx
  {
    hide ReadTransaction, VarInt;
    var frame := VarInt(|tx|) + tx;
    assert s[..|frame|] == frame;
    assert s == [] + VarInt(|tx|) + tx + s[|frame|..];
    TransactionReadsBack([], tx, s[|frame|..], parse);
  }

  lemma VarIntSize(n: nat)
    requires n < 0x1_0000_0000_0000_0000
    ensures 1 <= |VarInt(n)| <= 9
  {}

  lemma WindowBegins(file: Bytes, at: nat, n: nat, s: Bytes)
    requires |s| <= n && at <= |file| && s <= file[at..]
    ensures s <= Window(file, at, n)
  {
    forall i: nat | i < |s| ensures Window(file, at, n)[i] == s[i] {
      assert file[at..][i] == file[at + i];
    }
  }

  // ----- Sizes that do not fit -----

  /** A size field near the 64-bit limit makes the sum of size and prefix wrap around, and reading throws; any
      other that reaches beyond the file is a block that is not complete yet. */
  lemma SizesBeyondTheFile(file: Bytes, pos: nat, parse: TxParser)
    requires pos + 88 <= |file| < 0x1_0000_0000_0000_0000
    requires pos + 8 + ReadLE(file[pos..pos + 8]) > |file|
    ensures NextBlock(file, pos, parse) ==
      (pos, if ReadLE(file[pos..pos + 8]) >= 0x1_0000_0000_0000_0000 - 8 then Thrown else Done(None))
  {
    hide ReadLE, TxOffsets;
    ReadIsBelow(file[pos..pos + 8]);
    EightBytes();
  }
}

/** Little-endian integers of any width. */
module Integers {
  import opened Lz4Format

  function LittleEndian(n: nat, k: nat): (r: Bytes)
    ensures |r| == k
  {
    if k == 0 then [] else [n % 256] + LittleEndian(n / 256, k - 1)
  }

  function ReadLE(s: Bytes): nat {
    if s == [] then 0 else s[0] + 256 * ReadLE(s[1..])
  }

  function Pow256(k: nat): (r: nat)
    ensures r > 0
  {
    if k == 0 then 1 else 256 * Pow256(k - 1)
  }

  lemma {:induction false} ReadsBack(n: nat, k: nat)
    requires n < Pow256(k)
    ensures ReadLE(LittleEndian(n, k)) == n
  {
    if k > 0 {
      assert n / 256 < Pow256(k - 1);
      ReadsBack(n / 256, k - 1);
      assert LittleEndian(n, k)[1..] == LittleEndian(n / 256, k - 1);
    }
  }

  /** And what is read is written back as it was. */
  lemma {:induction false} WritesBack(s: Bytes)
    ensures LittleEndian(ReadLE(s), |s|) == s
  {
    if s != [] {
      WritesBack(s[1..]);
      assert ReadLE(s) % 256 == s[0] && ReadLE(s) / 256 == ReadLE(s[1..]);
    }
  }

  lemma {:induction false} ReadIsBelow(s: Bytes)
    ensures ReadLE(s) < Pow256(|s|)
  {
    if s != [] { ReadIsBelow(s[1..]); }
  }

  lemma EightBytes()
    ensures Pow256(8) == 0x1_0000_0000_0000_0000
  {
    assert Pow256(2) == 0x1_0000;
    assert Pow256(4) == 0x1_0000 * Pow256(2);
    assert Pow256(6) == 0x1_0000 * Pow256(4);
  }
}

/** A database in which some blocks of the chain are missing because saving them failed, and what a restart
    makes of it. */
module SavedHeaders {
  import opened Wrappers
  import opened ChainNumbering
  import opened ChainLinks
  import opened ChainLoading
  import opened ChainReload
  import opened Database

  /** The database of a node that saved these blocks of the chain, in any order, block number `top` the last;
      0 when there is none. */
  ghost predicate SavedOnly(db: Database, bs: seq<Header>, saved: set<nat>, top: nat) {
    && (forall i :: i in saved ==> i < |bs|)
    && (forall b :: b in db.headers <==> exists i: nat :: i in saved && i < |bs| && bs[i] == b)
    && (top == 0 <==> saved == {}) && top <= |bs| && (top > 0 ==> top - 1 in saved)
    && db.metaHash == (if top == 0 then "" else bs[top - 1].hash)
    && db.metaPrev == (if top == 0 then "" else bs[top - 1].prevHash)
  }

  lemma HashesBeforeDiffer(bs: seq<Header>, i: nat, j: nat)
    requires Chain(bs) && i < j <= |bs|
    ensures HashBefore(bs, i) != HashBefore(bs, j)
  {
    hide Chain;
    ChainAt(bs, j - 1);
    if i > 0 { ChainDistinct(bs, i - 1, j - 1); }
  }

  lemma NothingSaved(bs: seq<Header>)
    ensures SavedOnly(EMPTY, bs, {}, 0)
  {}

  /** A block that was not saved before becomes the last one, whatever was saved. */
  lemma SaveNew(db: Database, bs: seq<Header>, saved: set<nat>, top: nat, n: nat)
    requires Chain(bs) && n < |bs| && SavedOnly(db, bs, saved, top) && n !in saved
    ensures SavedOnly(SaveBlock(db, bs[n]), bs, saved + {n}, n + 1)
  {
    hide Chain;
    var b, more := bs[n], saved + {n};
    ChainAt(bs, n);
    if top > 0 {
      ChainAt(bs, top - 1);
      if top - 1 < n { HashesBeforeDiffer(bs, top - 1, n); } else { HashesBeforeDiffer(bs, n, top - 1); }
    }
    assert b.(number := None) == b;
    assert n in more;
    var db' := SaveBlock(db, b);
    forall h | h in db'.headers ensures exists i: nat :: i in more && i < |bs| && bs[i] == h {
      if h != b {
        var i: nat :| i in saved && i < |bs| && bs[i] == h;
        assert i in more;
      }
    }
    forall i: nat | i in more && i < |bs| ensures bs[i] in db'.headers {
      if i in saved { assert bs[i] in db.headers; }
    }
  }

  function Range(m: nat, n: nat): (r: set<nat>)
    ensures forall i: nat :: i in r <==> m <= i < n
  {
    if n <= m then {} else Range(m, n - 1) + {n - 1}
  }

  /** A piece of the chain saved behind what was there. */
  lemma {:induction false} SavePiece(db: Database, bs: seq<Header>, saved: set<nat>, top: nat, m: nat, n: nat)
    requires Chain(bs) && m <= n <= |bs| && SavedOnly(db, bs, saved, top)
    requires forall i :: i in saved ==> i < m || i >= n
    ensures SavedOnly(SaveAll(db, bs[m..n]), bs, saved + Range(m, n), if m < n then n else top)
    decreases n
  {
    hide Chain, SavedOnly, SaveBlock;
    if m == n {
      assert saved + Range(m, n) == saved;
    } else {
      SavePiece(db, bs, saved, top, m, n - 1);
      assert bs[m..n][..n - 1 - m] == bs[m..n - 1];
      SaveNew(SaveAll(db, bs[m..n - 1]), bs, saved + Range(m, n - 1), if m < n - 1 then n - 1 else top, n - 1);
      assert saved + Range(m, n - 1) + {n - 1} == saved + Range(m, n);
    }
  }

  // ----- What is on disk -----

  ghost predicate HasHash(db: Database, h: Hash) {
    exists b :: b in db.headers && b.hash == h
  }

  /** The parent of the last saved header is not on disk. */
  ghost predicate Misleads(db: Database) {
    db.metaHash != "" && db.metaPrev != GENESIS && !HasHash(db, db.metaPrev)
  }

  /** Headers on disk that lead from the genesis block to the last one saved. */
  ghost predicate LeadsToLast(db: Database, path: seq<Header>) {
    Chain(path) && path != [] && (forall b :: b in path ==> b in db.headers) && path[|path| - 1].hash == db.metaHash
  }

  /** No header is missing between the genesis block and the last one saved. */
  ghost predicate Complete(db: Database) {
    db.metaHash == "" || exists path :: LeadsToLast(db, path)
  }

  lemma WhichSaved(db: Database, bs: seq<Header>, saved: set<nat>, top: nat, b: Header) returns (i: nat)
    requires SavedOnly(db, bs, saved, top) && b in db.headers
    ensures i in saved && i < |bs| && bs[i] == b
  {
    i :| i in saved && i < |bs| && bs[i] == b;
  }

  lemma SavedIsOnDisk(db: Database, bs: seq<Header>, saved: set<nat>, top: nat, i: nat)
    requires SavedOnly(db, bs, saved, top) && i in saved
    ensures i < |bs| && bs[i] in db.headers
  {}

  /** A block's hash is on disk exactly when the block was saved. */
  lemma HashIsSaved(db: Database, bs: seq<Header>, saved: set<nat>, top: nat, n: nat)
    requires Chain(bs) && SavedOnly(db, bs, saved, top) && n < |bs|
    ensures HasHash(db, bs[n].hash) <==> n in saved
  {
    hide Chain, SavedOnly;
    if n in saved { SavedIsOnDisk(db, bs, saved, top, n); }
    if HasHash(db, bs[n].hash) {
      var b :| b in db.headers && b.hash == bs[n].hash;
      var i := WhichSaved(db, bs, saved, top, b);
      if i < n { ChainDistinct(bs, i, n); } else if i > n { ChainDistinct(bs, n, i); }
    }
  }

  /** Headers that lead to block number k of a chain are the chain up to there. */
  lemma {:induction false} OnlyOneWay(db: Database, bs: seq<Header>, saved: set<nat>, top: nat, path: seq<Header>,
                                      k: nat)
    requires Chain(bs) && SavedOnly(db, bs, saved, top) && Chain(path) && path != [] && 0 < k <= |bs|
    requires (forall b :: b in path ==> b in db.headers) && path[|path| - 1] == bs[k - 1]
    ensures forall i: nat :: i < k ==> i in saved
    decreases k
  {
    hide Chain, SavedOnly;
    var n := |path| - 1;
    ChainAt(path, n);
    ChainAt(bs, k - 1);
    assert path[n] in path;
    HashIsSaved(db, bs, saved, top, k - 1);
    if k > 1 {
      ChainAt(bs, k - 2);
      assert n > 0;
      assert path[n - 1] in path;
      var i := WhichSaved(db, bs, saved, top, path[n - 1]);
      if i < k - 2 { ChainDistinct(bs, i, k - 2); } else if i > k - 2 { ChainDistinct(bs, k - 2, i); }
      ChainFront(path);
      OnlyOneWay(db, bs, saved, top, path[..n], k - 1);
    }
  }

  lemma LastSaved(db: Database, bs: seq<Header>, saved: set<nat>, top: nat)
    requires Chain(bs) && SavedOnly(db, bs, saved, top)
    ensures top == 0 <==> db.metaHash == ""
    ensures top > 0 ==> top <= |bs| && db.metaHash == bs[top - 1].hash && db.metaPrev == HashBefore(bs, top - 1)
  {
    hide Chain;
    if top > 0 { ChainAt(bs, top - 1); }
  }

  /** The last block is complete exactly when everything below it was saved. */
  lemma CompleteMeansAllBelow(db: Database, bs: seq<Header>, saved: set<nat>, top: nat)
    requires Chain(bs) && SavedOnly(db, bs, saved, top)
    ensures Complete(db) <==> forall i: nat :: i < top ==> i in saved
  {
    hide Chain, SavedOnly;
    LastSaved(db, bs, saved, top);
    if top > 0 {
      if Complete(db) {
        var path :| LeadsToLast(db, path);
        var n := |path| - 1;
        assert path[n] in path;
        var i := WhichSaved(db, bs, saved, top, path[n]);
        if i < top - 1 { ChainDistinct(bs, i, top - 1); } else if i > top - 1 { ChainDistinct(bs, top - 1, i); }
        OnlyOneWay(db, bs, saved, top, path, top);
      }
      if forall i: nat :: i < top ==> i in saved {
        PrefixIsChain(bs, top);
        forall b | b in bs[..top] ensures b in db.headers {
          var i: nat :| i < top && bs[..top][i] == b;
          SavedIsOnDisk(db, bs, saved, top, i);
        }
        assert LeadsToLast(db, bs[..top]);
      }
    }
  }

  lemma MisledMeansParentMissing(db: Database, bs: seq<Header>, saved: set<nat>, top: nat)
    requires Chain(bs) && SavedOnly(db, bs, saved, top)
    ensures Misleads(db) <==> top > 1 && top - 2 !in saved
    ensures Misleads(db) ==> !Complete(db)
  {
    hide Chain, SavedOnly, HasHash, Complete;
    LastSaved(db, bs, saved, top);
    CompleteMeansAllBelow(db, bs, saved, top);
    if top > 1 {
      ChainAt(bs, top - 2);
      HashIsSaved(db, bs, saved, top, top - 2);
    }
  }

  // ----- Numbering over a hole -----

  /** The blocks number j and up of the chain are filed, the one before them is not. */
  ghost predicate HoleBelow(blocks: Blocks, bs: seq<Header>, j: nat) {
    && 0 < j <= |bs| && bs[j - 1].hash !in blocks
    && forall i: nat :: j <= i < |bs| ==> bs[i].hash in blocks && blocks[bs[i].hash] == bs[i]
  }

  /** The walk from the top of a chain visits it backwards down to the hole. */
  lemma {:induction false} WalkToTheHole(blocks: Blocks, bs: seq<Header>, j: nat, k: nat, seen: seq<Hash>)
    requires Chain(bs) && HoleBelow(blocks, bs, j) && j < k && Downwards(seen, bs, k)
    ensures forall s :: s in seen ==> s in blocks
    ensures bs[k - 1].hash in blocks
    ensures var (us, end) := Walk(blocks, bs[k - 1].hash, seen); |us| == |bs| - j && end == Missing
    decreases k
  {
    hide Walk, Chain;
    var b := bs[k - 1];
    forall i: nat | i < |seen| ensures seen[i] in blocks && seen[i] != b.hash {
      assert bs[|bs| - 1 - i].hash in blocks;
      ChainDistinct(bs, k - 1, |bs| - 1 - i);
    }
    ChainAt(bs, k - 1);
    ChainAt(bs, k - 2);
    WalkStep(blocks, b.hash, seen);
    assert Downwards(seen + [b.hash], bs, k - 1);
    if k - 1 > j { WalkToTheHole(blocks, bs, j, k - 1, seen + [b.hash]); }
  }

  /** Numbering over a hole: refused, unless the last block alone is above it; then that one is number 1. */
  lemma NumberingOverAHole(blocks: Blocks, bs: seq<Header>, j: nat)
    requires Chain(bs) && j < |bs| && HoleBelow(blocks, bs, j)
    ensures var h := bs[|bs| - 1].hash;
      var (r, st) := Calc(State(blocks, [GENESIS]), h);
      && (r == if j == |bs| - 1 then Done(1) else Thrown)
      && (r.Done? ==> st == State(blocks[h := bs[|bs| - 1].(number := Some(1))], [GENESIS, h]))
  {
    hide Walk, Chain, Calc;
    var h := bs[|bs| - 1].hash;
    ChainAt(bs, |bs| - 1);
    WalkToTheHole(blocks, bs, j, |bs|, []);
    var us := Walk(blocks, h, []).0;
    CalcByCases(State(blocks, [GENESIS]), h, us, Missing);
    if |us| == 1 {
      WalkStep(blocks, h, []);
      ChainAt(bs, |bs| - 2);
      assert us == [h];
      assert us[..0] == [] && Reverse(us) == [h] by { assert us[1..] == []; }
      assert Marked(blocks, us) == Renumber(blocks, h, 0);
      assert Numbered(Marked(blocks, us), us, 0, 1) == Renumber(Marked(blocks, us), h, 1);
    }
  }

  // ----- What a restart loads -----

  /** The highest block below the last saved one that is missing. */
  lemma HighestHole(saved: set<nat>, top: nat) returns (j: nat)
    requires top > 0 && top - 1 in saved && !forall i: nat :: i < top ==> i in saved
    ensures 0 < j < top && j - 1 !in saved && forall k: nat :: j <= k < top ==> k in saved
  {
    j := top - 1;
    while j > 0 && j - 1 in saved
      invariant j < top && forall k: nat :: j <= k < top ==> k in saved
    {
      j := j - 1;
    }
  }

  /** The headers on disk, filed. */
  lemma FiledIsSaved(db: Database, bs: seq<Header>, saved: set<nat>, top: nat, order: seq<Header>)
    requires Chain(bs) && SavedOnly(db, bs, saved, top) && ListsAll(db, order)
    ensures var blocks := FileAll(order);
      && GENESIS in blocks && blocks[GENESIS] == Header(GENESIS, "", Some(0))
      && (forall i: nat :: i < |bs| && i in saved ==> bs[i].hash in blocks && blocks[bs[i].hash] == bs[i])
      && (forall h :: h in blocks && h != GENESIS ==> exists i: nat :: i < |bs| && i in saved && bs[i].hash == h)
      && (forall i: nat :: i < |bs| && i !in saved ==> bs[i].hash !in blocks)
  {
    hide Chain, FileAll, Headers, SavedOnly;
    FilingKeepsAll(order);
    forall i: nat | i < |bs| && i in saved ensures bs[i].hash in FileAll(order) && FileAll(order)[bs[i].hash] == bs[i] {
      SavedIsOnDisk(db, bs, saved, top, i);
      assert bs[i] in order;
      var o: nat :| o < |order| && order[o] == bs[i];
    }
    forall h | h in FileAll(order) && h != GENESIS ensures exists i: nat :: i < |bs| && i in saved && bs[i].hash == h {
      var o: nat :| o < |order| && order[o].hash == h;
      assert order[o] in order;
      var i := WhichSaved(db, bs, saved, top, order[o]);
    }
    forall i: nat | i < |bs| && i !in saved ensures bs[i].hash !in FileAll(order) {
      ChainAt(bs, i);
      HashIsSaved(db, bs, saved, top, i);
      FiledIsOnDisk(db, order, bs[i].hash);
    }
  }

  lemma FiledIsOnDisk(db: Database, order: seq<Header>, h: Hash)
    requires ListsAll(db, order) && h != GENESIS
    ensures h in FileAll(order) ==> HasHash(db, h)
  {
    hide FileAll, Headers;
    FilingKeepsAll(order);
    if h in FileAll(order) {
      var o: nat :| o < |order| && order[o].hash == h;
      assert order[o] in order && order[o] in db.headers;
    }
  }
}

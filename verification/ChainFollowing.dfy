/** A chain in memory that grows along a source, after whatever was loaded: the front of the source, or, when
    the restart was misled, one block of it standing in for block 1. */
module ChainFollowing {
  import opened Wrappers
  import opened ChainNumbering
  import opened ChainLinks
  import opened ChainLoading
  import opened ChainReload
  import opened Database
  import opened SavedHeaders

  /** Which block of the source is number i on a chain whose block 1 is source[t]; on the right chain t is 0. */
  function PlaceOf(i: nat, t: nat): nat {
    if i == 0 then 0 else if i == 1 then t else i - 1
  }

  /** The chain lists source[t] and then the blocks of the source under their own numbers. Other blocks of the
      source may be filed without a number; on a wrong chain the first one may have its own. */
  ghost predicate Follows(st: State, source: seq<Header>, t: nat) {
    && 1 <= |st.hashes| <= |source| + 1 && st.hashes[0] == GENESIS
    && (t > 0 ==> 2 <= |st.hashes| <= t + 1 <= |source|)
    && ListsFrom(st, source, t) && OthersOpen(st, source, t)
    && GENESIS in st.blocks && st.blocks[GENESIS] == Header(GENESIS, "", Some(0)) && "" !in st.blocks
  }

  ghost predicate ListsFrom(st: State, source: seq<Header>, t: nat) {
    forall i: nat :: 0 < i < |st.hashes| ==>
      var k := PlaceOf(i, t);
      && k < |source| && st.hashes[i] == source[k].hash
      && st.hashes[i] in st.blocks && st.blocks[st.hashes[i]] == source[k].(number := Some(i))
  }

  /** A filed block that is not listed is one of the source, and open, but for the first on a wrong chain. */
  ghost predicate OthersOpen(st: State, source: seq<Header>, t: nat) {
    forall h :: h in st.blocks && h !in st.hashes ==> Filed(st.blocks[h], source, t, h)
  }

  ghost predicate Filed(b: Header, source: seq<Header>, t: nat, h: Hash) {
    exists k: nat :: k < |source| && source[k].hash == h
                     && (b == source[k] || (t > 0 && k == 0 && b == source[0].(number := Some(1))))
  }

  lemma ListedAt(st: State, source: seq<Header>, t: nat, i: nat)
    requires Follows(st, source, t) && 0 < i < |st.hashes|
    ensures var k := PlaceOf(i, t);
      && k < |source| && st.hashes[i] == source[k].hash
      && st.hashes[i] in st.blocks && st.blocks[st.hashes[i]] == source[k].(number := Some(i))
  {}

  /** Where the parent of the next block is. */
  lemma ParentOfNext(st: State, source: seq<Header>, t: nat)
    requires Chain(source) && Follows(st, source, t) && |st.hashes| <= |source| && (t == 0 || |st.hashes| > 2)
    ensures var n := |st.hashes| - 1; var p := source[n].prevHash;
      p in st.blocks && st.blocks[p].number == Some(n) && p != "" && p == st.hashes[n]
  {
    hide Chain, OthersOpen;
    var n := |st.hashes| - 1;
    ChainAt(source, n);
    if n > 0 { ListedAt(st, source, t, n); }
  }

  /** The first block of the source on a wrong chain: not filed, or filed with its own number or none. */
  lemma FirstOnWrongChain(st: State, source: seq<Header>, t: nat)
    requires Chain(source) && Follows(st, source, t) && t > 0 && |st.hashes| == 2 && source[0].hash in st.blocks
    ensures st.blocks[source[0].hash] == source[0] || st.blocks[source[0].hash] == source[0].(number := Some(1))
    ensures source[0].hash !in st.hashes
  {
    hide Chain;
    var h := source[0].hash;
    ChainAt(source, 0);
    ListedAt(st, source, t, 1);
    ChainDistinct(source, 0, t);
    assert st.hashes == [st.hashes[0], st.hashes[1]];
    assert Filed(st.blocks[h], source, t, h);
    var k: nat :| k < |source| && source[k].hash == h
                  && (st.blocks[h] == source[k] || (k == 0 && st.blocks[h] == source[0].(number := Some(1))));
    if k > 0 { ChainDistinct(source, 0, k); }
  }

  /** The next block of the source behind the chain. */
  lemma ExtendedFollows(st: State, source: seq<Header>, t: nat)
    requires Chain(source) && Follows(st, source, t) && |st.hashes| <= |source|
    requires source[|st.hashes| - 1].hash !in st.blocks && (t == 0 || |st.hashes| >= 2)
    ensures Follows(Extended(st, source[|st.hashes| - 1]), source, t)
  {
    hide Chain, Filed;
    var n := |st.hashes| - 1;
    var b := source[n];
    var st' := Extended(st, b);
    ChainAt(source, n);
    if t > 0 { ListedAt(st, source, t, 1); }
    forall i: nat | 0 < i < |st'.hashes|
      ensures var k := PlaceOf(i, t);
        && k < |source| && st'.hashes[i] == source[k].hash
        && st'.hashes[i] in st'.blocks && st'.blocks[st'.hashes[i]] == source[k].(number := Some(i))
    {
      if i <= n { ListedAt(st, source, t, i); }
    }
    forall h | h in st'.blocks && h !in st'.hashes ensures Filed(st'.blocks[h], source, t, h) {
      assert st'.hashes[n + 1] == b.hash;
      assert forall i: nat :: i < |st.hashes| ==> st'.hashes[i] == st.hashes[i];
      assert h in st.blocks && h !in st.hashes;
    }
  }

  /** The first block of a wrong chain's source gets its own number. */
  lemma FirstNumberedFollows(st: State, source: seq<Header>, t: nat)
    requires Chain(source) && Follows(st, source, t) && t > 0 && |st.hashes| == 2
    requires source[0].hash in st.blocks && st.blocks[source[0].hash] == source[0]
    ensures Follows(State(Renumber(st.blocks, source[0].hash, 1), st.hashes), source, t)
  {
    hide Chain, Filed;
    FirstOnWrongChain(st, source, t);
    ChainAt(source, 0);
    ListedAt(st, source, t, 1);
    var h := source[0].hash;
    var blocks := Renumber(st.blocks, h, 1);
    assert Filed(blocks[h], source, t, h) by { FiledFirst(source, t); }
  }

  lemma FiledFirst(source: seq<Header>, t: nat)
    requires source != [] && t > 0
    ensures Filed(source[0].(number := Some(1)), source, t, source[0].hash)
  {}

  /** Block 2 after a wrong block 1, with its parent filed but open: refused, and the parent is numbered. */
  lemma SecondIsRefused(st: State, source: seq<Header>, t: nat)
    requires Chain(source) && Follows(st, source, t) && t > 0 && |st.hashes| == 2
    requires source[1].hash !in st.blocks && source[0].hash in st.blocks && st.blocks[source[0].hash] == source[0]
    ensures Add(st, source[1]) == (Thrown, State(Renumber(st.blocks, source[0].hash, 1), st.hashes))
  {
    hide Walk, Calc, Chain, Follows, Numbered, Reverse;
    FollowsGenesis(st, source, t);
    ChainAt(source, 0);
    ChainAt(source, 1);
    ChainDistinct(source, 0, 1);
    var b, p := source[1], source[0].hash;
    var filed, us := st.blocks[b.hash := b], [b.hash, p];
    assert Walk(filed, b.hash, []) == (us, AtNumbered(0)) by {
      WalkStep(filed, b.hash, []);
      assert [] + [b.hash] == [b.hash];
      WalkStep(filed, p, [b.hash]);
      assert [b.hash] + [p] == us;
      WalkStops(filed, GENESIS, us);
    }
    CalcByCases(State(filed, st.hashes), b.hash, us, AtNumbered(0));
    assert us[..1] == [b.hash] && us[..1][..0] == [];
    assert Marked(filed, [b.hash]) == Renumber(filed, b.hash, 0);
    assert Marked(filed, us) == Renumber(Renumber(filed, b.hash, 0), p, 1);
    assert Renumber(Marked(filed, us), p, 1) - {b.hash} == Renumber(st.blocks, p, 1);
  }

  lemma FollowsGenesis(st: State, source: seq<Header>, t: nat)
    requires Follows(st, source, t)
    ensures GENESIS in st.blocks && st.blocks[GENESIS] == Header(GENESIS, "", Some(0)) && "" !in st.blocks
    ensures 1 <= |st.hashes| <= |source| + 1 && (t > 0 ==> 2 <= |st.hashes| <= t + 1 <= |source|)
  {}

  /** addBlock of the block of the source after the last one listed: refused, with the list as it was, or
      accepted under its own number in the source, even on a wrong chain; on the right one exactly when it is
      not filed yet. */
  lemma NextOfSource(st: State, source: seq<Header>, t: nat)
    requires Chain(source) && Follows(st, source, t) && |st.hashes| <= |source|
    ensures var n := |st.hashes| - 1; var b := source[n];
      var (r, st') := Add(st, b);
      && Follows(st', source, t)
      && (r == Done(n + 1) || r == Thrown)
      && (r.Done? ==> |st'.hashes| == n + 2 && b.hash !in st.blocks && st'.blocks.Keys == st.blocks.Keys + {b.hash})
      && (r.Thrown? ==> st'.hashes == st.hashes && st'.blocks.Keys == st.blocks.Keys)
      && (t == 0 ==> (r.Done? <==> b.hash !in st.blocks) && (r.Thrown? ==> st' == st))
  {
    hide Chain, Follows, Walk, Calc;
    FollowsGenesis(st, source, t);
    var n := |st.hashes| - 1;
    var b := source[n];
    ChainAt(source, n);
    if b.hash !in st.blocks {
      var filed := st.blocks[b.hash := b];
      if t == 0 || n > 1 {
        ParentOfNext(st, source, t);
        NextIsAnchored(st, source, t, n);
      } else {
        ChainAt(source, 0);
        ChainDistinct(source, 0, 1);
        if b.prevHash !in st.blocks {
          ShortWalk(filed, b);
          AddAfterShortWalk(st, b, Missing);
        } else {
          FirstOnWrongChain(st, source, t);
          if st.blocks[b.prevHash] == source[0] {
            SecondIsRefused(st, source, t);
            FirstNumberedFollows(st, source, t);
          } else {
            NextIsAnchored(st, source, t, n);
          }
        }
      }
    }
  }

  lemma NextIsAnchored(st: State, source: seq<Header>, t: nat, n: nat)
    requires Chain(source) && Follows(st, source, t) && n == |st.hashes| - 1 < |source|
    requires source[n].hash !in st.blocks && source[n].hash != "" && source[n].number.None?
    requires var p := source[n].prevHash; p in st.blocks && st.blocks[p].number == Some(n) && p != ""
    ensures Add(st, source[n]) == (Done(n + 1), Extended(st, source[n])) && Follows(Extended(st, source[n]), source, t)
  {
    hide Chain, Walk, Calc;
    var b := source[n];
    ShortWalk(st.blocks[b.hash := b], b);
    AddAfterShortWalk(st, b, AtNumbered(n));
    ExtendedFollows(st, source, t);
  }

  // ----- What a restart loads -----

  /** Which block stands in for block 1 after a restart; 0 when none does. */
  function StandIn(complete: bool, top: nat): nat {
    if complete || top == 0 then 0 else top - 1
  }

  /** A restart rebuilds the chain up to the last block saved if and only if nothing below it is missing.
      Otherwise it fails, with one exception: when the parent of the last block is missing, the last one is
      loaded as block 1. */
  lemma LoadOfWhatWasSaved(db: Database, bs: seq<Header>, saved: set<nat>, top: nat, order: seq<Header>)
    requires Chain(bs) && SavedOnly(db, bs, saved, top) && ListsAll(db, order)
    ensures var (r, st) := Load(db, order);
      && r == (if Complete(db) then Done(top) else if Misleads(db) then Done(1) else Thrown)
      && (Complete(db) ==> Follows(st, bs, 0) && |st.hashes| == top + 1)
      && (Misleads(db) ==> Follows(st, bs, top - 1) && |st.hashes| == 2 && !Linked(st))
      && (r.Done? ==> forall i: nat :: i < |bs| && i in saved ==> bs[i].hash in st.blocks)
    ensures Misleads(db) ==> !Complete(db) && top > 1
  {
    hide Chain, Calc, FileAll, ListsAll, HasHash, SavedOnly, Complete, Follows, Misleads;
    LastSaved(db, bs, saved, top);
    CompleteMeansAllBelow(db, bs, saved, top);
    MisledMeansParentMissing(db, bs, saved, top);
    FiledIsSaved(db, bs, saved, top, order);
    var blocks := FileAll(order);
    if top == 0 {
      FiledFollows(blocks, bs, saved);
    } else {
      TopSaved(db, bs, saved, top);
      PrefixIsChain(bs, top);
      if Complete(db) {
        LoadedFollows(blocks, bs, saved, top);
      } else {
        var j := HighestHole(saved, top);
        assert bs[..top][top - 1] == bs[top - 1] && bs[..top][j - 1] == bs[j - 1];
        assert HoleBelow(blocks, bs[..top], j);
        NumberingOverAHole(blocks, bs[..top], j);
        if Misleads(db) { MisledFollows(blocks, bs, saved, top); }
      }
    }
  }

  /** When nothing but the front of the chain is on disk, the chain loaded is that of adding it one by one. */
  lemma LoadOfTheFront(db: Database, bs: seq<Header>, saved: set<nat>, top: nat, order: seq<Header>)
    requires Chain(bs) && SavedOnly(db, bs, saved, top) && ListsAll(db, order) && saved == Range(0, top)
    ensures Complete(db) && top <= |bs| && Load(db, order) == (Done(top), AddAll(bs[..top]))
  {
    hide Chain, AddAll, Load, ListsAll, Complete;
    CompleteMeansAllBelow(db, bs, saved, top);
    forall b ensures b in db.headers <==> b in bs[..top] {
      if b in db.headers {
        var i := WhichSaved(db, bs, saved, top, b);
        assert bs[..top][i] == b;
      }
      if b in bs[..top] {
        var i: nat :| i < top && bs[..top][i] == b;
        SavedIsOnDisk(db, bs, saved, top, i);
      }
    }
    LoadRebuildsTheChain(db, bs, top, order);
  }

  lemma TopSaved(db: Database, bs: seq<Header>, saved: set<nat>, top: nat)
    requires SavedOnly(db, bs, saved, top) && top > 0
    ensures top <= |bs| && top - 1 in saved
  {}

  /** Only blocks of the source are filed, none numbered. */
  ghost predicate FiledFrom(blocks: Blocks, bs: seq<Header>, saved: set<nat>) {
    && GENESIS in blocks && blocks[GENESIS] == Header(GENESIS, "", Some(0))
    && (forall i: nat :: i < |bs| && i in saved ==> bs[i].hash in blocks && blocks[bs[i].hash] == bs[i])
    && (forall h :: h in blocks && h != GENESIS ==> exists i: nat :: i < |bs| && i in saved && bs[i].hash == h)
  }

  lemma FiledOpen(blocks: Blocks, bs: seq<Header>, saved: set<nat>, t: nat, h: Hash)
    requires Chain(bs) && FiledFrom(blocks, bs, saved) && h in blocks && h != GENESIS
    ensures Filed(blocks[h], bs, t, h) && h != ""
  {
    hide Chain;
    var i: nat :| i < |bs| && i in saved && bs[i].hash == h;
    ChainAt(bs, i);
    assert blocks[h] == bs[i];
  }

  lemma FiledFollows(blocks: Blocks, bs: seq<Header>, saved: set<nat>)
    requires Chain(bs) && FiledFrom(blocks, bs, saved)
    ensures Follows(State(blocks, [GENESIS]), bs, 0)
    ensures forall i: nat :: i < |bs| && i in saved ==> bs[i].hash in blocks
  {
    hide Chain, Filed;
    GenesisHasAName();
    forall h | h in blocks && h != GENESIS ensures Filed(blocks[h], bs, 0, h) && h != "" {
      FiledOpen(blocks, bs, saved, 0, h);
    }
  }

  lemma LoadedFollows(blocks: Blocks, bs: seq<Header>, saved: set<nat>, top: nat)
    requires Chain(bs) && FiledFrom(blocks, bs, saved) && 0 < top <= |bs|
    requires forall i: nat :: i < top ==> i in saved
    ensures var (r, st) := Calc(State(blocks, [GENESIS]), bs[top - 1].hash);
      && r == Done(top) && Follows(st, bs, 0) && |st.hashes| == top + 1 && st.blocks.Keys == blocks.Keys
  {
    hide Chain, Calc, Filed, Files, Lists, Numbers, FiledFrom;
    var front := bs[..top];
    PrefixIsChain(bs, top);
    FilesFront(blocks, bs, saved, top);
    NumberingAChain(blocks, front);
    var st := Calc(State(blocks, [GENESIS]), bs[top - 1].hash).1;
    ListsAt(st.hashes, front, 0);
    NumbersAt(st.blocks, front, 0);
    forall i: nat | 0 < i < |st.hashes|
      ensures st.hashes[i] == bs[i - 1].hash && st.hashes[i] in st.blocks
              && st.blocks[st.hashes[i]] == bs[i - 1].(number := Some(i))
    {
      ListsAt(st.hashes, front, i);
      NumbersAt(st.blocks, front, i);
    }
    forall h | h in blocks && h != GENESIS ensures Filed(blocks[h], bs, 0, h) && h != "" {
      FiledOpen(blocks, bs, saved, 0, h);
    }
    GenesisHasAName();
  }

  lemma FilesFront(blocks: Blocks, bs: seq<Header>, saved: set<nat>, top: nat)
    requires FiledFrom(blocks, bs, saved) && top <= |bs| && forall i: nat :: i < top ==> i in saved
    ensures Files(blocks, bs[..top])
  {
    forall i: nat | i < top ensures bs[..top][i].hash in blocks && blocks[bs[..top][i].hash] == bs[..top][i] {
      assert i in saved;
    }
  }

  lemma ListsAt(hashes: seq<Hash>, bs: seq<Header>, i: nat)
    requires Lists(hashes, bs) && i <= |bs|
    ensures |hashes| == |bs| + 1 && hashes[i] == HashBefore(bs, i)
  {}

  lemma MisledFollows(blocks: Blocks, bs: seq<Header>, saved: set<nat>, top: nat)
    requires Chain(bs) && FiledFrom(blocks, bs, saved) && 1 < top <= |bs| && top - 1 in saved
    ensures var h := bs[top - 1].hash;
      var st := State(blocks[h := bs[top - 1].(number := Some(1))], [GENESIS, h]);
      && Follows(st, bs, top - 1) && !Linked(st)
      && forall i: nat :: i < |bs| && i in saved ==> bs[i].hash in st.blocks
  {
    hide Chain, Filed;
    var b := bs[top - 1];
    var st := State(blocks[b.hash := b.(number := Some(1))], [GENESIS, b.hash]);
    ChainAt(bs, top - 1);
    ChainAt(bs, top - 2);
    GenesisHasAName();
    forall g | g in blocks && g != GENESIS ensures Filed(blocks[g], bs, top - 1, g) && g != "" {
      FiledOpen(blocks, bs, saved, top - 1, g);
    }
    assert st.hashes[1] == b.hash && b.prevHash != GENESIS;
  }
}

/** Reloading a saved chain: headers filed in any order, forks included, then numbered once from the tip. */
module ChainReload {
  import opened Wrappers
  import opened ChainNumbering
  import opened ChainLinks
  import opened ChainLoading

  /** addWithoutCalc on the blocks alone; the empty hash is an exception at the caller. */
  function File(blocks: Blocks, b: Header): Blocks {
    if b.hash in blocks then blocks else blocks[b.hash := b]
  }

  function FileAll(headers: seq<Header>): Blocks {
    if headers == [] then Initial().blocks
    else File(FileAll(headers[..|headers| - 1]), headers[|headers| - 1])
  }

  /** addBlock one after the other, whether accepted or not. */
  function AddEach(st: State, bs: seq<Header>): State {
    if bs == [] then st else Add(AddEach(st, bs[..|bs| - 1]), bs[|bs| - 1]).1
  }

  function AddAll(bs: seq<Header>): State {
    AddEach(Initial(), bs)
  }

  /** Unnumbered headers, each the child of the one before it and the first a child of the genesis block. */
  ghost predicate Chain(bs: seq<Header>) {
    && Headers(bs)
    && forall i: nat :: i < |bs| ==> bs[i].prevHash == HashBefore(bs, i)
  }

  function HashBefore(bs: seq<Header>, i: nat): Hash
    requires i <= |bs|
  {
    if i == 0 then GENESIS else bs[i - 1].hash
  }

  /** Unnumbered headers under different hashes, as they come out of the database. */
  ghost predicate Headers(hs: seq<Header>) {
    && (forall i: nat :: i < |hs| ==> hs[i].number.None? && hs[i].hash != "" && hs[i].hash != GENESIS)
    && forall i: nat, j: nat :: i < j < |hs| ==> hs[i].hash != hs[j].hash
  }

  /** The state of a node that has exactly `bs` after the genesis block. */
  ghost predicate Holds(st: State, bs: seq<Header>) {
    && Lists(st.hashes, bs) && Numbers(st.blocks, bs)
    && forall h :: h in st.blocks ==> h in st.hashes
  }

  ghost predicate Lists(hashes: seq<Hash>, bs: seq<Header>) {
    |hashes| == |bs| + 1 && forall i: nat :: i <= |bs| ==> hashes[i] == HashBefore(bs, i)
  }

  /** Every block of `bs` is filed under its place, the genesis block under 0. */
  ghost predicate Numbers(blocks: Blocks, bs: seq<Header>) {
    && GENESIS in blocks && blocks[GENESIS] == Header(GENESIS, "", Some(0))
    && forall i: nat :: i < |bs| ==> bs[i].hash in blocks && blocks[bs[i].hash] == bs[i].(number := Some(i + 1))
  }

  lemma HoldsLength(st: State, bs: seq<Header>)
    requires Holds(st, bs)
    ensures |st.hashes| == |bs| + 1
  {}

  lemma HoldsAt(st: State, bs: seq<Header>, h: Hash)
    requires Holds(st, bs) && h in st.hashes
    ensures h in st.blocks && exists i: nat :: i <= |bs| && HashBefore(bs, i) == h
    ensures h == GENESIS ==> st.blocks[h] == Header(GENESIS, "", Some(0))
    ensures forall i: nat :: i < |bs| && bs[i].hash == h ==> st.blocks[h] == bs[i].(number := Some(i + 1))
  {
    var i: nat :| i < |st.hashes| && st.hashes[i] == h;
    assert HashBefore(bs, i) == h;
    if i > 0 { assert bs[i - 1].hash == h; }
  }

  lemma HoldsIsUnique(st: State, st': State, bs: seq<Header>)
    requires Holds(st, bs) && Holds(st', bs)
    ensures st == st'
  {
    hide Numbers;
    assert st.hashes == st'.hashes;
    forall h | h in st.hashes ensures h in st.blocks && h in st'.blocks && st.blocks[h] == st'.blocks[h] {
      HoldsAt(st, bs, h);
      HoldsAt(st', bs, h);
      var i: nat :| i <= |bs| && HashBefore(bs, i) == h;
      if i > 0 { assert bs[i - 1].hash == h; }
    }
    assert st.blocks.Keys == st'.blocks.Keys;
  }

  lemma ChainFront(bs: seq<Header>)
    requires Chain(bs) && bs != []
    ensures Chain(bs[..|bs| - 1])
  {}

  /** The last block of a chain, seen from a node that holds the rest. */
  lemma ChainLast(bs: seq<Header>, st: State)
    requires Chain(bs) && bs != [] && Holds(st, bs[..|bs| - 1])
    ensures var b := bs[|bs| - 1];
      b.number.None? && b.hash != "" && b.hash !in st.blocks && b.prevHash == Tip(st)
    ensures |st.hashes| == |bs|
  {
    hide Numbers, Chain;
    var b, front := bs[|bs| - 1], bs[..|bs| - 1];
    ChainAt(bs, |bs| - 1);
    assert Tip(st) == HashBefore(front, |front|) == HashBefore(bs, |front|);
    forall i: nat | i < |st.hashes| ensures st.hashes[i] != b.hash {
      assert st.hashes[i] == HashBefore(front, i);
      if i > 0 { ChainDistinct(bs, i - 1, |bs| - 1); }
    }
  }

  lemma ChainAt(bs: seq<Header>, i: nat)
    requires Chain(bs) && i < |bs|
    ensures bs[i].number.None? && bs[i].hash != "" && bs[i].hash != GENESIS && bs[i].prevHash != ""
    ensures bs[i].prevHash == HashBefore(bs, i)
  {
    GenesisHasAName();
  }

  lemma ChainDistinct(bs: seq<Header>, i: nat, j: nat)
    requires Chain(bs) && i < j < |bs|
    ensures bs[i].hash != bs[j].hash
  {}

  /** Adding a chain one by one: every add is accepted with the next number. */
  lemma {:induction false} AddingOneByOne(bs: seq<Header>)
    requires Chain(bs)
    ensures Full(AddAll(bs)) && Linked(AddAll(bs)) && Holds(AddAll(bs), bs)
    ensures bs != [] ==> Add(AddAll(bs[..|bs| - 1]), bs[|bs| - 1]).0 == Done(|bs|)
  {
    hide Full, Add, Linked, Chain, Extended, Initial, Holds;
    if bs == [] {
      InitialIsFull();
    } else {
      var front, b := bs[..|bs| - 1], bs[|bs| - 1];
      ChainFront(bs);
      AddingOneByOne(front);
      var st := AddAll(front);
      ChainLast(bs, st);
      FullHasNoForks(st, b);
      AddTakesChildrenOfTheTip(st, b);
      ExtendedHolds(st, bs);
    }
  }

  lemma FullHasNoForks(st: State, b: Header)
    requires Full(st)
    ensures Listed(st) && st.hashes != [] && !ForkChild(st, b)
  {}

  lemma InitialIsFull()
    ensures Full(Initial()) && Linked(Initial()) && Holds(Initial(), [])
  {}

  lemma ExtendedHolds(st: State, bs: seq<Header>)
    requires Chain(bs) && bs != [] && Holds(st, bs[..|bs| - 1])
    ensures Holds(Extended(st, bs[|bs| - 1]), bs)
  {
    hide Chain, Numbers;
    var front, b := bs[..|bs| - 1], bs[|bs| - 1];
    forall i: nat | i < |bs| ensures HashBefore(front, i) == HashBefore(bs, i) {}
    ExtendedNumbers(st.blocks, bs);
    ExtendedLists(st, b);
  }

  lemma ExtendedNumbers(blocks: Blocks, bs: seq<Header>)
    requires Chain(bs) && bs != [] && Numbers(blocks, bs[..|bs| - 1])
    ensures var b := bs[|bs| - 1]; Numbers(blocks[b.hash := b.(number := Some(|bs|))], bs)
  {
    hide Chain;
    var front, b := bs[..|bs| - 1], bs[|bs| - 1];
    ChainAt(bs, |bs| - 1);
    forall i: nat | i < |front| ensures front[i] == bs[i] && bs[i].hash != b.hash {
      ChainDistinct(bs, i, |bs| - 1);
    }
  }

  lemma ExtendedLists(st: State, b: Header)
    requires forall h :: h in st.blocks ==> h in st.hashes
    ensures forall h :: h in Extended(st, b).blocks ==> h in Extended(st, b).hashes
  {}

  lemma PrefixIsChain(bs: seq<Header>, n: nat)
    requires Chain(bs) && n <= |bs|
    ensures Chain(bs[..n])
  {}

  lemma AddAllOneMore(bs: seq<Header>)
    requires bs != []
    ensures AddAll(bs) == Add(AddAll(bs[..|bs| - 1]), bs[|bs| - 1]).1
  {}

  /** A node that holds a prefix takes the next block, as the number it has in the source. */
  lemma NextIsAdded(st: State, source: seq<Header>, n: nat)
    requires Chain(source) && n < |source| && Holds(st, source[..n])
    ensures Add(st, source[n]).0 == Done(n + 1) && Holds(Add(st, source[n]).1, source[..n + 1])
  {
    hide *;
    PrefixIsChain(source, n);
    PrefixIsChain(source, n + 1);
    AddingOneByOne(source[..n]);
    HoldsIsUnique(st, AddAll(source[..n]), source[..n]);
    assert source[..n + 1][..n] == source[..n];
    AddAllOneMore(source[..n + 1]);
    AddingOneByOne(source[..n + 1]);
  }

  // ----- Filing in any order -----

  lemma {:induction false} FilingKeepsAll(hs: seq<Header>)
    requires Headers(hs)
    ensures var blocks := FileAll(hs);
      && GENESIS in blocks && blocks[GENESIS] == Header(GENESIS, "", Some(0))
      && (forall i: nat :: i < |hs| ==> hs[i].hash in blocks && blocks[hs[i].hash] == hs[i])
      && forall h :: h in blocks && h != GENESIS ==> exists i: nat :: i < |hs| && hs[i].hash == h
  {
    if hs != [] {
      var front, b := hs[..|hs| - 1], hs[|hs| - 1];
      FilingKeepsAll(front);
      assert b.hash !in FileAll(front) by {
        if b.hash in FileAll(front) {
          assert false;
        }
      }
      forall i: nat | i < |hs| ensures hs[i].hash in FileAll(hs) && FileAll(hs)[hs[i].hash] == hs[i] {
        if i < |front| { assert front[i] == hs[i]; }
      }
      forall h | h in FileAll(hs) && h != GENESIS ensures exists i: nat :: i < |hs| && hs[i].hash == h {
        if h == b.hash {
          assert hs[|hs| - 1].hash == h;
        } else {
          var i: nat :| i < |front| && front[i].hash == h;
          assert hs[i].hash == h;
        }
      }
    }
  }

  /** Filed with its number still open. */
  ghost predicate Files(blocks: Blocks, bs: seq<Header>) {
    && GENESIS in blocks && blocks[GENESIS] == Header(GENESIS, "", Some(0))
    && forall i: nat :: i < |bs| ==> bs[i].hash in blocks && blocks[bs[i].hash] == bs[i]
  }

  /** The chain from its top down to, and without, its first k blocks. */
  ghost predicate Downwards(us: seq<Hash>, bs: seq<Header>, k: nat) {
    k <= |bs| && |us| == |bs| - k && forall i: nat :: i < |us| ==> us[i] == bs[|bs| - 1 - i].hash
  }

  lemma DownwardsIn(us: seq<Hash>, bs: seq<Header>, k: nat, blocks: Blocks)
    requires Chain(bs) && Downwards(us, bs, k) && Files(blocks, bs)
    ensures forall u :: u in us ==> u in blocks
    ensures k > 0 ==> bs[k - 1].hash !in us && Downwards(us + [bs[k - 1].hash], bs, k - 1)
    ensures GENESIS !in us && Distinct(us)
  {
    hide Chain;
    forall i: nat | i < |us|
      ensures us[i] in blocks && us[i] != GENESIS && (k > 0 ==> us[i] != bs[k - 1].hash)
    {
      var j := |bs| - 1 - i;
      assert bs[j].hash in blocks;
      ChainAt(bs, j);
      if k > 0 { ChainDistinct(bs, k - 1, j); }
    }
    forall i: nat, j: nat | i < j < |us| ensures us[i] != us[j] {
      ChainDistinct(bs, |bs| - 1 - j, |bs| - 1 - i);
    }
  }

  /** The walk from the top of a chain visits it backwards and stops at the genesis block. */
  lemma {:induction false} WalkDownTheChain(blocks: Blocks, bs: seq<Header>, k: nat, seen: seq<Hash>)
    requires Chain(bs) && Files(blocks, bs) && Downwards(seen, bs, k)
    ensures forall s :: s in seen ==> s in blocks
    ensures var h := HashBefore(bs, k);
      h in blocks && var (us, end) := Walk(blocks, h, seen); Downwards(us, bs, 0) && end == AtNumbered(0)
    decreases k
  {
    hide Walk, Chain;
    DownwardsIn(seen, bs, k, blocks);
    if k == 0 {
      WalkStops(blocks, GENESIS, seen);
    } else {
      var b := bs[k - 1];
      ChainAt(bs, k - 1);
      WalkStep(blocks, b.hash, seen);
      WalkDownTheChain(blocks, bs, k - 1, seen + [b.hash]);
    }
  }

  lemma WalkStops(blocks: Blocks, h: Hash, seen: seq<Hash>)
    requires h in blocks && blocks[h].number.Some? && forall s :: s in seen ==> s in blocks
    ensures Walk(blocks, h, seen) == (seen, AtNumbered(blocks[h].number.value))
  {}

  /** The outcome of numbering from the tip of a filed chain. */
  lemma NumberingAChain(blocks: Blocks, bs: seq<Header>)
    requires Chain(bs) && Files(blocks, bs) && bs != []
    ensures var (r, st) := Calc(State(blocks, [GENESIS]), bs[|bs| - 1].hash);
      && r == Done(|bs|) && Lists(st.hashes, bs)
      && st.blocks.Keys == blocks.Keys && Numbers(st.blocks, bs)
      && forall h :: h in blocks && h !in st.hashes ==> st.blocks[h] == blocks[h]
  {
    hide Walk, Reverse, Chain, Calc, Marked, Numbered, Files, Distinct, Numbers;
    var st0, h := State(blocks, [GENESIS]), bs[|bs| - 1].hash;
    FilesAt(blocks, bs, |bs| - 1);
    WalkDownTheChain(blocks, bs, |bs|, []);
    var us := Walk(blocks, h, []).0;
    DownwardsIn(us, bs, 0, blocks);
    ChainAt(bs, |bs| - 1);
    CalcByCases(st0, h, us, AtNumbered(0));
    var st := Calc(st0, h).1;
    assert st == State(Numbered(Marked(blocks, us), us, 0, 1), [GENESIS] + Reverse(us));
    NumbersAfter(blocks, bs, us);
    forall i: nat | i < |us| ensures us[i] in st.hashes {
      assert st.hashes[|us| - i] == us[i];
    }
  }

  lemma FilesAt(blocks: Blocks, bs: seq<Header>, i: nat)
    requires Files(blocks, bs) && i < |bs|
    ensures bs[i].hash in blocks && blocks[bs[i].hash] == bs[i]
  {}

  lemma NumbersAfter(blocks: Blocks, bs: seq<Header>, us: seq<Hash>)
    requires Files(blocks, bs) && Downwards(us, bs, 0) && Distinct(us) && GENESIS !in us
    requires forall u :: u in us ==> u in blocks
    ensures var after := Numbered(Marked(blocks, us), us, 0, 1);
      && after.Keys == blocks.Keys && Numbers(after, bs)
      && forall h :: h in blocks && h !in us ==> after[h] == blocks[h]
  {
    hide Numbered, Marked, Distinct;
    FinalNumbers(blocks, us, 1);
    var after := Numbered(Marked(blocks, us), us, 0, 1);
    forall i: nat | i < |bs|
      ensures bs[i].hash in after && after[bs[i].hash] == bs[i].(number := Some(i + 1))
    {
      assert us[|bs| - 1 - i] == bs[i].hash;
    }
  }

  /** What was filed from the database is a linked chain of the genesis block alone. */
  lemma FiledIsLinked(hs: seq<Header>)
    requires Headers(hs)
    ensures Linked(State(FileAll(hs), [GENESIS]))
  {
    hide FileAll, Headers;
    FilingKeepsAll(hs);
    GenesisHasAName();
    forall h | h in FileAll(hs) && h != GENESIS
      ensures h != "" && FileAll(hs)[h].hash == h && FileAll(hs)[h].number.None?
    {
      var i: nat :| i < |hs| && hs[i].hash == h;
      HeadersAt(hs, i);
    }
  }

  lemma HeadersAt(hs: seq<Header>, i: nat)
    requires Headers(hs) && i < |hs|
    ensures hs[i].number.None? && hs[i].hash != "" && hs[i].hash != GENESIS
  {}

  lemma FilesFromAll(bs: seq<Header>, hs: seq<Header>)
    requires Headers(hs) && forall b :: b in bs ==> b in hs
    ensures Files(FileAll(hs), bs)
  {
    hide FileAll, Headers;
    FilingKeepsAll(hs);
    forall i: nat | i < |bs| ensures bs[i].hash in FileAll(hs) && FileAll(hs)[bs[i].hash] == bs[i] {
      assert bs[i] in hs;
      var j: nat :| j < |hs| && hs[j] == bs[i];
    }
  }

  lemma ChainIsLinkedAfterNumbering(blocks: Blocks, bs: seq<Header>)
    requires Chain(bs) && Files(blocks, bs) && bs != [] && Linked(State(blocks, [GENESIS]))
    ensures Linked(Calc(State(blocks, [GENESIS]), bs[|bs| - 1].hash).1)
  {
    hide Chain, Files, Walk, Calc, Linked;
    FilesAt(blocks, bs, |bs| - 1);
    NumberingAChain(blocks, bs);
    WalkDownTheChain(blocks, bs, |bs|, []);
    CalcKeepsLinksExactlyWhenAnchored(State(blocks, [GENESIS]), bs[|bs| - 1].hash);
  }

  /** Numbering filed headers from the tip of a chain among them, whatever the order of filing and whatever
      else was filed: the same list of hashes and the same numbered blocks as adding the chain one by one;
      forks stay filed and unnumbered. */
  lemma LoadingIsAddingOneByOne(bs: seq<Header>, hs: seq<Header>)
    requires Chain(bs) && Headers(hs) && bs != []
    requires forall b :: b in bs ==> b in hs
    ensures var (r, st) := Calc(State(FileAll(hs), [GENESIS]), bs[|bs| - 1].hash);
      && r == Done(|bs|) && Linked(st)
      && st.hashes == AddAll(bs).hashes
      && (forall h :: h in AddAll(bs).blocks ==> h in st.blocks && st.blocks[h] == AddAll(bs).blocks[h])
      && (forall b :: b in hs && b !in bs ==> b.hash in st.blocks && st.blocks[b.hash] == b)
      && ((forall b :: b in hs ==> b in bs) ==> st == AddAll(bs))
  {
    hide Calc, FileAll, AddAll, Linked, Headers, Chain, Files, Numbers;
    FilesFromAll(bs, hs);
    FiledIsLinked(hs);
    AddingOneByOne(bs);
    var blocks := FileAll(hs);
    NumberingAChain(blocks, bs);
    ChainIsLinkedAfterNumbering(blocks, bs);
    var st, added := Calc(State(blocks, [GENESIS]), bs[|bs| - 1].hash).1, AddAll(bs);
    assert st.hashes == added.hashes;
    SameNumbers(st.blocks, added, bs);
    ForksStay(st, bs, hs);
    if forall b :: b in hs ==> b in bs {
      OnlyTheChain(bs, hs, st.hashes);
      HoldsIsUnique(st, added, bs);
    }
  }

  lemma SameNumbers(blocks: Blocks, st: State, bs: seq<Header>)
    requires Numbers(blocks, bs) && Holds(st, bs)
    ensures forall h :: h in st.blocks ==> h in blocks && blocks[h] == st.blocks[h]
  {
    hide Numbers, Holds;
    forall h | h in st.blocks ensures h in blocks && blocks[h] == st.blocks[h] {
      HoldsLists(st, bs, h);
      HoldsAt(st, bs, h);
      var i: nat :| i <= |bs| && HashBefore(bs, i) == h;
      NumbersAt(blocks, bs, i);
    }
  }

  lemma HoldsLists(st: State, bs: seq<Header>, h: Hash)
    requires Holds(st, bs) && h in st.blocks
    ensures h in st.hashes
  {}

  lemma NumbersAt(blocks: Blocks, bs: seq<Header>, i: nat)
    requires Numbers(blocks, bs) && i <= |bs|
    ensures HashBefore(bs, i) in blocks
    ensures blocks[HashBefore(bs, i)] ==
      if i == 0 then Header(GENESIS, "", Some(0)) else bs[i - 1].(number := Some(i))
  {}

  /** A header filed beside the chain is neither numbered nor listed. */
  lemma ForksStay(st: State, bs: seq<Header>, hs: seq<Header>)
    requires Headers(hs) && (forall b :: b in bs ==> b in hs) && Lists(st.hashes, bs)
    requires st.blocks.Keys == FileAll(hs).Keys
    requires forall h :: h in FileAll(hs) && h !in st.hashes ==> st.blocks[h] == FileAll(hs)[h]
    ensures forall b :: b in hs && b !in bs ==> b.hash in st.blocks && st.blocks[b.hash] == b
  {
    hide FileAll, Headers;
    FilingKeepsAll(hs);
    forall b | b in hs && b !in bs ensures b.hash in st.blocks && st.blocks[b.hash] == b {
      var j: nat :| j < |hs| && hs[j] == b;
      forall i: nat | i < |st.hashes| ensures st.hashes[i] != b.hash {
        assert st.hashes[i] == HashBefore(bs, i);
        if i == 0 {
          HeadersAt(hs, j);
        } else {
          assert bs[i - 1] in hs;
          var k: nat :| k < |hs| && hs[k] == bs[i - 1];
          assert j != k;
          HeadersDiffer(hs, j, k);
        }
      }
    }
  }

  lemma HeadersDiffer(hs: seq<Header>, i: nat, j: nat)
    requires Headers(hs) && i < |hs| && j < |hs| && i != j
    ensures hs[i].hash != hs[j].hash
  {}

  lemma OnlyTheChain(bs: seq<Header>, hs: seq<Header>, hashes: seq<Hash>)
    requires Headers(hs) && Lists(hashes, bs) && forall b :: b in hs ==> b in bs
    ensures forall h :: h in FileAll(hs) ==> h in hashes
  {
    hide FileAll, Headers;
    FilingKeepsAll(hs);
    forall h | h in FileAll(hs) ensures h in hashes {
      if h == GENESIS {
        assert hashes[0] == h;
      } else {
        var i: nat :| i < |hs| && hs[i].hash == h;
        assert hs[i] in bs;
        var j: nat :| j < |bs| && bs[j] == hs[i];
        assert hashes[j + 1] == HashBefore(bs, j + 1);
      }
    }
  }
}

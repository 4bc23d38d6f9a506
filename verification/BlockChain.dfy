/** The BlockChain class: the block map and the list of hashes, updated in place. */
module BlockChain {
  import opened Wrappers
  import opened ChainNumbering
  import opened ChainLinks

  const NO_BLOCK := Header("", "", None)

  class BlockChain {
    var blocks: Blocks
    var hashes: seq<Hash>

    ghost function Now(): State
      reads this
    {
      State(blocks, hashes)
    }

    /** Blocks are filed under their own hash. */
    ghost predicate Filed()
      reads this
    {
      FiledIn(blocks)
    }

    constructor ()
      ensures Filed() && Now() == Initial()
    {
      blocks, hashes := map[GENESIS := Header(GENESIS, "", Some(0))], [GENESIS];
    }

    method Clear()
      modifies this
      ensures Filed() && Now() == Initial()
    {
      blocks, hashes := map[GENESIS := Header(GENESIS, "", Some(0))], [GENESIS];
    }

    /** Files a block without numbering it; a block already filed stays as it is. */
    method AddWithoutCalc(block: Header) returns (exist: Outcome<bool>)
      requires Filed()
      modifies this`blocks
      ensures Filed()
      ensures exist == if block.hash == "" then Thrown else Done(block.hash in old(blocks))
      ensures blocks == if block.hash == "" || block.hash in old(blocks) then old(blocks)
                        else old(blocks)[block.hash := block]
    {
      if block.hash == "" { return Thrown; }
      var found := block.hash in blocks;
      if !found { blocks := blocks[block.hash := block]; }
      return Done(found);
    }

    /** The first loop of calcBlockchain: marks unnumbered blocks with their place in the walk. False
        when an empty parent hash ended the walk with an exception. */
    method MarkWalk(lastHash: Hash) returns (ok: bool, bh: Hash, processed: seq<Hash>)
      requires lastHash in blocks
      modifies this`blocks
      ensures forall p :: p in processed ==> p in old(blocks)
      ensures blocks == Marked(old(blocks), processed)
      ensures var (us, end) := Walk(old(blocks), lastHash, []);
        && processed == us && (ok <==> !end.NoParent?)
        && (ok ==> bh in blocks && blocks[bh].number == Some(FirstNumber(us, end) - 1))
    {
      hide Marked, Walk;
      ghost var blocks0 := blocks;
      assert blocks0 == Marked(blocks0, []) by { MarkedNone(blocks0); }
      bh, processed, ok := lastHash, [], true;
      while blocks[bh].number.None?
        invariant bh in blocks0 && Distinct(processed)
        invariant forall p :: p in processed ==> p in blocks0 && blocks0[p].number.None?
        invariant blocks == Marked(blocks0, processed)
        invariant Walk(blocks0, bh, processed) == Walk(blocks0, lastHash, [])
        decreases blocks0.Keys - set p | p in processed
      {
        MarkedNumber(blocks0, processed, bh);
        WalkStep(blocks0, bh, processed);
        MarkedMore(blocks0, processed, bh);
        blocks := blocks[bh := blocks[bh].(number := Some(|processed|))];
        processed := processed + [bh];
        var prevHash := blocks[bh].prevHash;
        if prevHash == "" { return false, bh, processed; }
        if prevHash !in blocks { return; }
        bh := prevHash;
      }
      MarkedNumber(blocks0, processed, bh);
      WalkEnds(blocks0, bh, processed);
    }

    /** The second loop: final numbers from the end of the walk, appending each hash. */
    method NumberBack(processed: seq<Hash>, allNum: nat, ghost marked: Blocks, ghost first: nat) returns (ok: bool)
      requires blocks == marked && Distinct(processed) && processed != [] && allNum == first + |processed| - 1
      requires forall i: nat :: i < |processed| ==> processed[i] in marked
      requires forall i: nat :: i < |processed| ==> marked[processed[i]].hash == processed[i]
      requires forall i: nat :: i < |processed| ==> marked[processed[i]].number == Some(i)
      modifies this
      ensures ok <==> first == old(|hashes|)
      ensures ok ==> blocks == Numbered(marked, processed, 0, first) && hashes == old(hashes) + Reverse(processed)
      ensures !ok ==> blocks == Renumber(marked, processed[|processed| - 1], first) && hashes == old(hashes)
    {
      hide Reverse, Distinct, Numbered;
      var k := |processed|;
      NumberedNone(marked, processed, first);
      ReverseNone(processed);
      while k > 0
        invariant 0 <= k <= |processed| && blocks == Numbered(marked, processed, k, first)
        invariant k < |processed| ==> first == old(|hashes|)
        invariant hashes == old(hashes) + Reverse(processed[k..])
      {
        var h := processed[k - 1];
        NumberedSoFar(marked, processed, k, first);
        ReverseMore(processed, k);
        k := k - 1;
        blocks := blocks[h := blocks[h].(number := Some(allNum - blocks[h].number.value))];
        assert blocks == Numbered(marked, processed, k, first);
        if blocks[h].number.value != |hashes| {
          return false;
        }
        hashes := hashes + [blocks[h].hash];
      }
      assert processed[0..] == processed;
      return true;
    }

    /** calcBlockchain. The walk always ends at a block that has a number by then, so the branch that
        would take the temporary numbers back is never entered. */
    method CalcBlockchain(lastHash: Hash) returns (r: Outcome<nat>)
      requires Filed()
      modifies this
      ensures Filed() && (r, Now()) == Calc(old(Now()), lastHash)
    {
      hide Marked, Walk, Numbered, Reverse, Distinct, Calc, FiledIn;
      ghost var st := Now();
      if lastHash == "" || lastHash !in blocks {
        CalcUnknown(st, lastHash);
        return Thrown;
      }
      WalkInside(blocks, lastHash, []);
      WalkIsFresh(blocks, lastHash, []);
      var ok, bh, processed := MarkWalk(lastHash);
      ghost var end := Walk(st.blocks, lastHash, []).1;
      ghost var first := FirstNumber(processed, end);
      CalcByCases(st, lastHash, processed, end);
      MarkedPlaces(st.blocks, processed);
      if !ok { return Thrown; }
      var allNum := |processed| + blocks[bh].number.value;
      if processed == [] {
        return Done(allNum);
      }
      NumberedKeepsFiled(blocks, processed, 0, first);
      RenumberKeepsFiled(blocks, processed[|processed| - 1], first);
      ok := NumberBack(processed, allNum, blocks, first);
      return if ok then Done(allNum) else Thrown;
    }

    /** Files the block, numbers it, and takes it out again if that throws. */
    method AddBlock(block: Header) returns (r: Outcome<nat>)
      requires Filed()
      modifies this
      ensures Filed() && (r, Now()) == Add(old(Now()), block)
    {
      hide Calc;
      var found := AddWithoutCalc(block);
      if found == Thrown || found.value { return Thrown; }
      r := CalcBlockchain(block.hash);
      if r.Thrown? { blocks := blocks - {block.hash}; }
    }

    /** A header that is found is the one asked for; on a chain whose list is in order its number, if it has
        one, is its place there. An unknown hash gives a default header. */
    method GetBlock(hash: Hash) returns (r: Outcome<Header>)
      requires Filed()
      ensures r.Thrown? <==> hash == ""
      ensures r.Done? ==> r.value == NO_BLOCK || (r.value.hash == hash && r.value.hash in blocks)
      ensures r.Done? && hash in blocks ==> r.value == blocks[hash] && r.value.hash == hash
      ensures r.Done? && Linked(Now()) && r.value.number.Some? ==>
        r.value.number.value < |hashes| && hashes[r.value.number.value] == hash
      ensures r.Done? && Linked(Now()) && r.value.number.None? ==> hash !in hashes
      ensures r.Done? && Linked(Now()) && r.value.number.Some? && hash != GENESIS ==>
        r.value.number.value > 0 && r.value.prevHash == hashes[r.value.number.value - 1]
    {
      if hash == "" { return Thrown; }
      if hash !in blocks {
        if Linked(Now()) { UnknownIsUnlisted(Now(), hash); }
        return Done(NO_BLOCK);
      }
      if Linked(Now()) { KnownByNumber(Now(), hash); }
      return Done(blocks[hash]);
    }

    method GetBlockByNumber(blockNumber: nat) returns (r: Header)
      ensures blockNumber < |hashes| && hashes[blockNumber] in blocks ==> r == blocks[hashes[blockNumber]]
      ensures Linked(Now()) && blockNumber < |hashes| ==> r.hash == hashes[blockNumber] && r.number == Some(blockNumber)
      ensures Linked(Now()) && 0 < blockNumber < |hashes| ==> r.prevHash == hashes[blockNumber - 1]
      ensures |hashes| <= blockNumber ==> r == NO_BLOCK
    {
      if |hashes| <= blockNumber { return NO_BLOCK; }
      var h := hashes[blockNumber];
      return if h in blocks then blocks[h] else NO_BLOCK;
    }

    method GetLastBlock() returns (r: Header)
      requires Linked(Now())
      ensures r.hash == Tip(Now()) && r.number == Some(|hashes| - 1)
    {
      r := GetBlockByNumber(|hashes| - 1);
    }

    method CountBlocks() returns (n: nat)
      requires hashes != []
      ensures n + 1 == |hashes| && (Linked(Now()) ==> blocks[Tip(Now())].number == Some(n))
    {
      return |hashes| - 1;
    }
  }

  lemma UnknownIsUnlisted(st: State, h: Hash)
    requires Linked(st) && h !in st.blocks
    ensures h !in st.hashes
  {}

  /** On a linked chain the number of a block is its place, and none means that it is not listed. */
  lemma KnownByNumber(st: State, h: Hash)
    requires Linked(st) && h in st.blocks
    ensures st.blocks[h].number.None? ==> h !in st.hashes
    ensures st.blocks[h].number.Some? ==>
      var n := st.blocks[h].number.value;
      && n < |st.hashes| && st.hashes[n] == h
      && (h != GENESIS ==> n > 0 && st.blocks[h].prevHash == st.hashes[n - 1])
  {
    if st.blocks[h].number.Some? { NumberIsPlace(st, h); }
  }

  /** While the walk is marked, each of its blocks carries its place in it. */
  lemma MarkedPlaces(blocks: Blocks, us: seq<Hash>)
    requires FiledIn(blocks) && (forall u :: u in us ==> u in blocks) && Distinct(us)
    ensures var marked := Marked(blocks, us);
      && FiledIn(marked)
      && (forall i: nat :: i < |us| ==> us[i] in marked && marked[us[i]].hash == us[i])
      && forall i: nat :: i < |us| ==> marked[us[i]].number == Some(i)
  {
    MarkedNumbers(blocks, us);
    MarkedKeepsFiled(blocks, us);
  }

  lemma MarkedNone(blocks: Blocks)
    ensures Marked(blocks, []) == blocks
  {}

  lemma MarkedMore(blocks: Blocks, us: seq<Hash>, h: Hash)
    requires (forall u :: u in us ==> u in blocks) && h in blocks
    ensures Marked(blocks, us + [h]) == Renumber(Marked(blocks, us), h, |us|)
  {
    assert (us + [h])[..|us|] == us;
  }

  lemma WalkEnds(blocks: Blocks, h: Hash, seen: seq<Hash>)
    requires h in blocks && forall s :: s in seen ==> s in blocks
    requires blocks[h].number.Some? || h in seen
    ensures Walk(blocks, h, seen) ==
      (seen, if blocks[h].number.Some? then AtNumbered(blocks[h].number.value) else AtOwn(Find(seen, h)))
  {}

  lemma NumberedNone(blocks: Blocks, us: seq<Hash>, first: nat)
    requires forall u :: u in us ==> u in blocks
    ensures Numbered(blocks, us, |us|, first) == blocks
  {}

  /** While us[k..] has its final numbers, us[k - 1] still has its place as its number. */
  lemma NumberedSoFar(blocks: Blocks, us: seq<Hash>, k: nat, first: nat)
    requires 0 < k <= |us| && Distinct(us)
    requires forall u :: u in us ==> u in blocks
    ensures us[k - 1] in blocks
    ensures Numbered(blocks, us, k, first)[us[k - 1]] == blocks[us[k - 1]]
    ensures Numbered(blocks, us, k - 1, first)
         == Renumber(Numbered(blocks, us, k, first), us[k - 1], first + |us| - k)
    ensures k == |us| ==> Numbered(blocks, us, k, first) == blocks
  {
    hide Numbered;
    NumberedNumbers(blocks, us, k, first);
    assert us[k - 1] !in us[k..];
    NumberedStep(blocks, us, k, first);
    NumberedNone(blocks, us, first);
  }

  lemma NumberedStep(blocks: Blocks, us: seq<Hash>, k: nat, first: nat)
    requires 0 < k <= |us|
    requires forall u :: u in us ==> u in blocks
    ensures Numbered(blocks, us, k - 1, first)
         == Renumber(Numbered(blocks, us, k, first), us[k - 1], first + |us| - k)
  {}

  lemma RenumberKeepsFiled(blocks: Blocks, h: Hash, n: nat)
    requires FiledIn(blocks) && h in blocks
    ensures FiledIn(Renumber(blocks, h, n))
  {}

  lemma {:induction false} MarkedKeepsFiled(blocks: Blocks, us: seq<Hash>)
    requires FiledIn(blocks) && forall u :: u in us ==> u in blocks
    ensures FiledIn(Marked(blocks, us))
    decreases |us|
  {
    if us != [] { MarkedKeepsFiled(blocks, us[..|us| - 1]); }
  }

  lemma {:induction false} NumberedKeepsFiled(blocks: Blocks, us: seq<Hash>, k: nat, first: nat)
    requires k <= |us| && FiledIn(blocks) && forall u :: u in us ==> u in blocks
    ensures FiledIn(Numbered(blocks, us, k, first))
    decreases |us| - k
  {
    if k < |us| { NumberedKeepsFiled(blocks, us, k + 1, first); }
  }
}

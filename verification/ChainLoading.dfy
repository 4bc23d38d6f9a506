/** Adding one block, and loading many: what addBlock accepts and leaves behind, and why headers filed in any
    order and numbered once from the tip give the chain that adding them one by one gives. */
module ChainLoading {
  import opened Wrappers
  import opened ChainNumbering
  import opened ChainLinks

  // ----- Adding a block whose parent is numbered or unknown -----

  /** hashes lists exactly the blocks that have a number, by it. Forks may be filed beside them, and the
      blocks listed need not be linked. */
  ghost predicate Listed(st: State) {
    FiledIn(st.blocks) && "" !in st.blocks && st.hashes != [] && InOrder(st) && OnlyListed(st)
  }

  /** No fork was filed beside the chain. */
  ghost predicate Full(st: State) {
    Listed(st) && forall h :: h in st.blocks ==> st.blocks[h].number.Some?
  }

  /** The parent is one of the blocks filed beside the chain. */
  predicate ForkChild(st: State, b: Header) {
    b.prevHash in st.blocks && st.blocks[b.prevHash].number.None?
  }

  function Extended(st: State, b: Header): State {
    State(st.blocks[b.hash := b.(number := Some(|st.hashes|))], st.hashes + [b.hash])
  }

  /** The walk from a block filed beside numbered parents stops after one step. */
  lemma ShortWalk(blocks: Blocks, b: Header)
    requires b.hash in blocks && blocks[b.hash] == b && b.number.None?
    requires b.prevHash in blocks && b.prevHash != b.hash && b.prevHash != "" ==> blocks[b.prevHash].number.Some?
    ensures Walk(blocks, b.hash, []) ==
      ([b.hash],
       if b.prevHash == "" then NoParent
       else if b.prevHash !in blocks then Missing
       else if b.prevHash == b.hash then AtOwn(0)
       else AtNumbered(blocks[b.prevHash].number.value))
  {
    WalkStep(blocks, b.hash, []);
    assert [] + [b.hash] == [b.hash];
  }

  /** addBlock when the walk is the block alone: it is numbered and listed, or nothing stays. */
  lemma AddAfterShortWalk(st: State, b: Header, end: End)
    requires b.hash != "" && b.hash !in st.blocks
    requires Walk(st.blocks[b.hash := b], b.hash, []) == ([b.hash], end)
    ensures Add(st, b) ==
      if !end.NoParent? && FirstNumber([b.hash], end) == |st.hashes| then (Done(|st.hashes|), Extended(st, b))
      else (Thrown, st)
  {
    hide Walk, FirstNumber, Calc;
    var filed, us := st.blocks[b.hash := b], [b.hash];
    CalcByCases(State(filed, st.hashes), b.hash, us, end);
    var first := FirstNumber(us, end);
    assert Marked(filed, us) == Renumber(filed, b.hash, 0) by { assert us[..0] == []; }
    assert Numbered(Marked(filed, us), us, 0, first) == Renumber(Marked(filed, us), b.hash, first);
    assert Reverse(us) == [b.hash] by { assert us[1..] == []; }
    assert Renumber(Marked(filed, us), b.hash, first) == filed[b.hash := b.(number := Some(first))];
    assert filed[b.hash := b.(number := Some(first))] == st.blocks[b.hash := b.(number := Some(first))];
    assert filed[b.hash := b.(number := Some(first))] - {b.hash} == st.blocks;
    assert Marked(filed, us) - {b.hash} == st.blocks;
  }

  /** addBlock of a block whose parent is not one of the unnumbered ones. It takes exactly the children of
      the tip, with one exception: on a chain that is still at its first block it also takes any block whose
      parent is unknown, and links it to nothing. A block that is not taken leaves no trace. */
  lemma AddTakesChildrenOfTheTip(st: State, b: Header)
    requires Listed(st) && b.number.None? && !ForkChild(st, b)
    ensures var (r, st') := Add(st, b);
      var orphan := |st.hashes| == 1 && b.prevHash != "" && b.prevHash !in st.blocks;
      && (r.Done? <==> b.hash != "" && b.hash !in st.blocks && (b.prevHash == Tip(st) || orphan))
      && (r, st') == (if r.Done? then (Done(|st.hashes|), Extended(st, b)) else (Thrown, st))
      && Listed(st') && (Full(st) ==> Full(st'))
      && (r.Done? && Linked(st) ==> (Linked(st') <==> b.prevHash == Tip(st)))
  {
    hide Linked, InOrder, OnlyListed, FiledIn;
    if b.hash != "" && b.hash !in st.blocks {
      var filed := st.blocks[b.hash := b];
      ShortWalk(filed, b);
      AddAfterShortWalk(st, b, Walk(filed, b.hash, []).1);
      if b.prevHash in st.blocks { ListedPlace(st, b.prevHash); }
      TipIsLast(st);
      ExtendedIsListed(st, b);
      if Linked(st) { ExtendedIsLinked(st, b); }
    }
  }

  lemma TipIsLast(st: State)
    requires Listed(st)
    ensures Tip(st) in st.blocks && st.blocks[Tip(st)].number == Some(|st.hashes| - 1)
  {}

  lemma ListedPlace(st: State, h: Hash)
    requires Listed(st) && h in st.blocks && st.blocks[h].number.Some?
    ensures st.blocks[h].number.value < |st.hashes| && st.hashes[st.blocks[h].number.value] == h
  {
    var i: nat :| i < |st.hashes| && st.hashes[i] == h;
  }

  lemma ExtendedIsListed(st: State, b: Header)
    requires Listed(st) && b.hash != "" && b.hash !in st.blocks
    ensures Listed(Extended(st, b))
  {
    var st' := Extended(st, b);
    assert st'.hashes[|st.hashes|] == b.hash;
    forall i: nat | i < |st'.hashes|
      ensures st'.hashes[i] in st'.blocks && st'.blocks[st'.hashes[i]].number == Some(i)
    {
      if i < |st.hashes| { assert st'.hashes[i] == st.hashes[i]; }
    }
    forall h | h in st'.blocks && st'.blocks[h].number.Some? ensures h in st'.hashes {
      if h != b.hash { assert h in st.hashes; }
    }
  }

  lemma ExtendedIsLinked(st: State, b: Header)
    requires Linked(st) && Listed(Extended(st, b)) && b.hash !in st.blocks
    ensures Linked(Extended(st, b)) <==> b.prevHash == Tip(st)
  {
    hide OnlyListed, FiledIn;
    var st' := Extended(st, b);
    assert st'.hashes[|st.hashes|] == b.hash && st'.hashes[|st.hashes| - 1] == Tip(st);
    assert st'.blocks[b.hash].prevHash == b.prevHash;
    forall i: nat | 0 < i < |st.hashes|
      ensures st'.blocks[st'.hashes[i]].prevHash == st'.hashes[i - 1]
    {
      assert st'.hashes[i] == st.hashes[i] && st'.hashes[i - 1] == st.hashes[i - 1];
    }
  }

  /** The exception: a first block whose parent nobody knows becomes block 1. */
  lemma OrphanBecomesBlockOne()
    ensures var b := Header("b", "a", None);
      && Add(Initial(), b) == (Done(1), Extended(Initial(), b))
      && !Linked(Extended(Initial(), b))
  {
    InitialIsLinked();
    AddTakesChildrenOfTheTip(Initial(), Header("b", "a", None));
  }

  // ----- Adding a block beside forks -----

  /** An accepted block grows hashes, and is numbered behind all the others, whatever the state was. It gets
      the next number exactly when its parent is not one of the unnumbered blocks; otherwise those on the way
      are taken along, and the block gets a higher one. */
  lemma AcceptedOnAForkSkipsNumbers(st: State, b: Header)
    requires "" !in st.blocks && b.number.None? && Add(st, b).0.Done?
    ensures b.hash != "" && b.hash !in st.blocks
    ensures |Add(st, b).1.hashes| > |st.hashes| && Add(st, b).0 == Done(|Add(st, b).1.hashes| - 1)
    ensures |Add(st, b).1.hashes| == |st.hashes| + 1 <==> !ForkChild(st, b)
    ensures Add(st, b).1.blocks.Keys == st.blocks.Keys + {b.hash}
  {
    hide Walk, Calc;
    var filed := st.blocks[b.hash := b];
    CalcUnlessUnknown(State(filed, st.hashes), b.hash);
    var us, end := Walk(filed, b.hash, []).0, Walk(filed, b.hash, []).1;
    CalcByCases(State(filed, st.hashes), b.hash, us, end);
    if ForkChild(st, b) { WalkReaches(filed, b.hash, b.prevHash); } else { ShortWalk(filed, b); }
  }

  lemma CalcUnlessUnknown(st: State, h: Hash)
    ensures Calc(st, h).0.Done? ==> h != "" && h in st.blocks
  {}

  /** addBlock on any linked chain: after a block is accepted the chain is linked if and only if its walk
      ended at a block that had a number. */
  lemma AddKeepsLinksExactlyWhenAnchored(st: State, b: Header)
    requires Linked(st) && b.number.None? && b.hash != "" && b.hash !in st.blocks
    requires Add(st, b).0.Done?
    ensures Linked(Add(st, b).1) <==> Walk(st.blocks[b.hash := b], b.hash, []).1.AtNumbered?
  {
    hide Walk, Calc;
    CalcKeepsLinksExactlyWhenAnchored(State(st.blocks[b.hash := b], st.hashes), b.hash);
  }

  /** A linked chain of two blocks, with a block filed beside it whose parent is unknown. */
  const FORKED := State(map[GENESIS := Header(GENESIS, "", Some(0)), "a" := Header("a", GENESIS, Some(1)),
                            "x" := Header("x", "z", None)], [GENESIS, "a"])

  lemma ForkedIsLinked()
    ensures Linked(FORKED) && GENESIS !in ["", "a", "x", "y", "z"]
  {
    assert |GENESIS| == 4 * |ZEROS16|;
  }

  lemma WalkOfTwo(blocks: Blocks)
    requires "x" in blocks && "y" in blocks && "z" !in blocks
    requires blocks["y"] == Header("y", "x", None) && blocks["x"] == Header("x", "z", None)
    ensures Walk(blocks, "y", []) == (["y", "x"], Missing)
  {
    hide Walk;
    WalkStep(blocks, "y", []);
    assert [] + ["y"] == ["y"];
    WalkStep(blocks, "x", ["y"]);
    assert ["y"] + ["x"] == ["y", "x"];
  }

  /** An unanchored walk that happens to have the length asked for: both its blocks are accepted behind a tip
      that is the parent of neither, the new one as number 3 on a chain whose next number is 2. */
  lemma ForkOfTheRightLengthIsAccepted()
    ensures var (r, st) := Add(FORKED, Header("y", "x", None));
      r == Done(3) && st.hashes == [GENESIS, "a", "x", "y"] && Linked(FORKED) && !Linked(st)
  {
    ForkedIsLinked();
    var b := Header("y", "x", None);
    var filed := FORKED.blocks[b.hash := b];
    WalkOfTwo(filed);
    hide Walk, Linked, Calc, GENESIS;
    CalcByCases(State(filed, FORKED.hashes), "y", ["y", "x"], Missing);
    assert Reverse(["y", "x"]) == ["x", "y"];
    AddKeepsLinksExactlyWhenAnchored(FORKED, b);
  }

  /** A failed addBlock: the list of hashes survives it; the blocks do, and with them the links, exactly when
      the parent is not one of the unnumbered ones. */
  lemma FailedAddLeavesNoTraceUnlessParentUnnumbered(st: State, b: Header)
    requires Linked(st) && b.number.None? && b.hash != "" && b.hash !in st.blocks
    requires Add(st, b).0.Thrown?
    ensures Add(st, b).1.hashes == st.hashes
    ensures Add(st, b).1 == st <==> !ForkChild(st, b)
    ensures Linked(Add(st, b).1) <==> !ForkChild(st, b)
  {
    hide Linked;
    var filed := st.blocks[b.hash := b];
    assert b.prevHash in st.blocks ==> b.prevHash != b.hash && b.prevHash != "" by { LinkedNamesBlocks(st); }
    if ForkChild(st, b) {
      var p := b.prevHash;
      var us, end := Walk(filed, b.hash, []).0, Walk(filed, b.hash, []).1;
      WalkInside(filed, b.hash, []);
      WalkIsFresh(filed, b.hash, []);
      WalkStep(filed, b.hash, []);
      WalkStep(filed, p, [b.hash]);
      WalkReaches(filed, b.hash, p);
      MarkedNumbers(filed, us);
      var st' := Add(st, b).1;
      assert us[1] == p && us[0] == b.hash;
      assert st'.blocks[p].number.Some?;
      UnlistedNumberUnlinks(st, st', p);
    } else {
      ShortWalk(filed, b);
      AddAfterShortWalk(st, b, Walk(filed, b.hash, []).1);
    }
  }

  lemma UnlistedNumberUnlinks(st: State, st': State, p: Hash)
    requires Linked(st) && p in st.blocks && st.blocks[p].number.None?
    requires st'.hashes == st.hashes && p in st'.blocks && st'.blocks[p].number.Some?
    ensures !Linked(st')
  {
    forall i: nat | i < |st.hashes| ensures st.hashes[i] != p { InOrderAt(st, i); }
    assert OnlyListed(st') ==> p in st.hashes;
  }

  /** A fresh chain with a block filed beside it whose parent is unknown. */
  const FORKED_AT_START := State(map[GENESIS := Header(GENESIS, "", Some(0)), "x" := Header("x", "z", None)], [GENESIS])

  /** Two blocks do not fit where one is expected; the fork is left with a number all the same. */
  lemma FailedAddNumbersTheFork()
    ensures var (r, st) := Add(FORKED_AT_START, Header("y", "x", None));
      r.Thrown? && "x" in st.blocks && st.blocks["x"].number.Some?
      && Linked(FORKED_AT_START) && !Linked(st)
  {
    ForkedIsLinked();
    assert Linked(FORKED_AT_START);
    var b := Header("y", "x", None);
    var filed := FORKED_AT_START.blocks[b.hash := b];
    WalkOfTwo(filed);
    hide Walk, Linked, Calc, GENESIS;
    CalcByCases(State(filed, FORKED_AT_START.hashes), "y", ["y", "x"], Missing);
    FailedAddLeavesNoTraceUnlessParentUnnumbered(FORKED_AT_START, b);
  }

  /** A block whose parent is numbered but is not the tip changes nothing, whatever was filed beside the
      chain. */
  lemma ParentBelowTheTipChangesNothing(st: State, b: Header)
    requires Linked(st) && b.number.None?
    requires b.prevHash in st.blocks && st.blocks[b.prevHash].number.Some? && b.prevHash != Tip(st)
    ensures Add(st, b) == (Thrown, st)
  {
    LinkedNamesBlocks(st);
    if b.hash != "" && b.hash !in st.blocks {
      hide Linked;
      var filed := st.blocks[b.hash := b];
      ShortWalk(filed, b);
      AddAfterShortWalk(st, b, Walk(filed, b.hash, []).1);
      NumberIsPlace(st, b.prevHash);
    }
  }

  lemma LinkedNamesBlocks(st: State)
    requires Linked(st)
    ensures "" !in st.blocks
  {}

  /** A walk from an unnumbered block whose parent is unnumbered too goes on to the parent. */
  lemma WalkReaches(blocks: Blocks, h: Hash, p: Hash)
    requires h in blocks && p in blocks && p != h && p != "" && blocks[h].prevHash == p
    requires blocks[h].number.None? && blocks[p].number.None?
    ensures var us := Walk(blocks, h, []).0; |us| >= 2 && us[0] == h && us[1] == p
  {
    hide Walk;
    WalkStep(blocks, h, []);
    assert [] + [h] == [h];
    WalkStep(blocks, p, [h]);
    var q, more := blocks[p].prevHash, [h] + [p];
    if q in blocks && q != "" { WalkInside(blocks, q, more); }
  }
}

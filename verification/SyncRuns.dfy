/** What rounds of the synchronisation loop amount to: the numbers blocks get, what a consistent source gives,
    when a round may end, and the block file over any number of rounds. */
module SyncRuns {
  import opened Wrappers
  import opened ChainNumbering
  import opened ChainLinks
  import opened ChainLoading
  import opened ChainReload
  import opened BlockArchive
  import opened BlockFeed
  import opened Database
  import opened SavedHeaders
  import opened ChainFollowing
  import opened WorkerMain
  import opened SyncRound
  import Lz4Format

  // ----- Numbers -----

  /** No block was added on top of an unnumbered one. */
  ghost predicate OffForks(st: State, hs: seq<Header>) {
    hs == [] ||
    var front := hs[..|hs| - 1];
    OffForks(st, front) && !ForkChild(AddEach(st, front), hs[|hs| - 1])
  }

  ghost predicate NumberedInOrder(bs: seq<Numbered>, first: nat) {
    forall k: nat :: k < |bs| ==> bs[k].number == Some(first + k)
  }

  /** Blocks are numbered one after the other, as the answers to the numbers asked for, exactly as long as none
      of them is added on top of an unnumbered one. */
  lemma {:induction false} NumbersFollowExactlyOffForks(st: State, hs: seq<Header>)
    requires "" !in st.blocks && EachAdded(st, hs) && forall h :: h in hs ==> h.number.None?
    ensures |AddEach(st, hs).hashes| >= |st.hashes| + |hs| && "" !in AddEach(st, hs).blocks
    ensures |AddEach(st, hs).hashes| == |st.hashes| + |hs| <==> OffForks(st, hs)
    ensures NumberedInOrder(NumbersGiven(st, hs), |st.hashes|) <==> OffForks(st, hs)
  {
    hide Add, ForkChild;
    if hs != [] {
      var front, h := hs[..|hs| - 1], hs[|hs| - 1];
      assert hs == front + [h];
      NumbersFollowExactlyOffForks(st, front);
      AcceptedOnAForkSkipsNumbers(AddEach(st, front), h);
      LastNumber(NumbersGiven(st, front), NumbersGiven(st, hs)[|front|], |st.hashes|);
    }
  }

  lemma LastNumber(bs: seq<Numbered>, b: Numbered, first: nat)
    ensures NumberedInOrder(bs + [b], first) <==> NumberedInOrder(bs, first) && b.number == Some(first + |bs|)
  {
    if NumberedInOrder(bs + [b], first) {
      forall k: nat | k < |bs| ensures bs[k].number == Some(first + k) { assert (bs + [b])[k] == bs[k]; }
      assert (bs + [b])[|bs|] == b;
    }
  }

  /** A chain on which it happens: the answer to number 2 is added as number 3. */
  lemma ForkedChainSkipsANumber()
    ensures EachAdded(FORKED, [Header("y", "x", None)]) && !OffForks(FORKED, [Header("y", "x", None)])
    ensures NumbersGiven(FORKED, [Header("y", "x", None)]) == [Header("y", "x", Some(3))] && |FORKED.hashes| == 2
  {
    ForkOfTheRightLengthIsAccepted();
    var hs := [Header("y", "x", None)];
    assert hs[..0] == [];
  }

  // ----- A consistent source -----

  /** Whoever answers, block n is always the same block of one chain. */
  ghost predicate Consistent(net: Net, chain: seq<Block>) {
    forall i: nat, n: nat :: net(i, n).Some? ==> 0 < n <= |chain| && net(i, n).value == chain[n - 1]
  }

  ghost predicate SuccessorConfirms(chain: seq<Block>, j: nat) {
    j + 1 < |chain| && Confirms(chain[j + 1], chain[j].hash)
  }

  lemma SuccessorIsThere(chain: seq<Block>, j: nat)
    ensures SuccessorConfirms(chain, j) ==> j + 1 < |chain|
  {}

  lemma SuccessorSigns(chain: seq<Block>, j: nat, i: nat)
    requires SuccessorConfirms(chain, j) && i < |chain[j + 1].signs|
    ensures chain[j + 1].signs[i] == chain[j].hash
  {}

  lemma AnswerIsInChain(net: Net, chain: seq<Block>, n: nat, b: Block)
    requires Consistent(net, chain) && Answered(net, n, b)
    ensures 0 < n <= |chain| && b == chain[n - 1]
  {
    var i: nat :| net(i, n) == Some(b);
  }

  /** Blocks m + 1 .. n of the source, numbered. */
  function NumberedPiece(source: seq<Header>, m: nat, n: nat): (r: seq<Numbered>)
    requires m <= n <= |source|
    ensures |r| == n - m && forall i: nat :: i < |r| ==> r[i] == source[m + i].(number := Some(m + i + 1))
    decreases n
  {
    if m == n then [] else NumberedPiece(source, m, n - 1) + [source[n - 1].(number := Some(n))]
  }

  /** The blocks on disk after a round that added m + 1 .. n, of which the last may not have been saved. */
  function SavedAfter(saved: set<nat>, m: nat, n: nat, unsaved: bool): set<nat> {
    saved + Range(m, if unsaved && n > 0 then n - 1 else n)
  }

  function TopAfter(top: nat, m: nat, n: nat, unsaved: bool): nat {
    var last := if unsaved && n > 0 then n - 1 else n;
    if m < last then last else top
  }

  /** From a consistent source a round adds a contiguous piece of its chain, directly after what the node
      had: the chain holds exactly the longer prefix, the worker was sent the same blocks under their numbers
      in the source, and the database has their headers but for one that failed at the end; with validation
      the block after the last one added exists as well, and every block added is confirmed by the signatures
      of its successor. */
  lemma ConsistentSourceGivesAPrefix(chain: seq<Block>, m: nat, saved: set<nat>, top: nat, m0: Memory, lastSaved: nat,
                                     net: Net, isValidate: bool, added: seq<Block>, unsaved: bool, reached: Memory)
    requires Chain(HeadersOf(chain)) && Consistent(net, chain) && m <= |chain|
    requires Holds(m0.chain, HeadersOf(chain)[..m]) && SavedOnly(m0.db, HeadersOf(chain), saved, top)
    requires forall i :: i in saved ==> i < m
    requires Progress(m0, lastSaved, net, isValidate, added, unsaved, reached)
    ensures m + |added| <= |chain| && added == chain[m..m + |added|] && (unsaved ==> added != [])
    ensures Holds(reached.chain, HeadersOf(chain)[..m + |added|])
    ensures SavedOnly(reached.db, HeadersOf(chain), SavedAfter(saved, m, m + |added|, unsaved),
                      TopAfter(top, m, m + |added|, unsaved))
    ensures reached.queue == OfferedAll(lastSaved, m0.queue, NumberedPiece(HeadersOf(chain), m, m + |added|))
    ensures isValidate && added != [] ==> m + |added| < |chain|
    ensures isValidate ==> forall k: nat, i: nat :: m < k <= m + |added| && i < |chain[k].signs| ==>
      chain[k].signs[i] == added[k - m - 1].hash
  {
    hide Consistent, Justified, Chain, Holds, SavedOnly, AddEach, EachAdded, NumbersGiven, OfferedAll, SaveAll,
      HeadersOf, SuccessorConfirms, ArchiveGrown, NumberedPiece;
    HoldsLength(m0.chain, HeadersOf(chain)[..m]);
    var n, source := m + |added|, HeadersOf(chain);
    AddedIsAPiece(chain, m, net, isValidate, added);
    HeadersOfPiece(chain, m, n);
    AddAlong(m0.chain, source, m, n);
    var last := if unsaved then n - 1 else n;
    if unsaved { FrontOfPiece(source, m, n); }
    if n > 0 { SuccessorIsThere(chain, n - 1); }
    forall k: nat, i: nat | isValidate && m < k <= n && i < |chain[k].signs|
      ensures chain[k].signs[i] == added[k - m - 1].hash
    {
      SuccessorSigns(chain, k - 1, i);
    }
    SavePiece(m0.db, source, saved, top, m, last);
  }

  lemma JustifiedAt(net: Net, isValidate: bool, first: nat, added: seq<Block>, k: nat)
    requires Justified(net, isValidate, first, added) && k < |added|
    ensures Answered(net, first + k, added[k])
    ensures isValidate ==> Confirmed(net, first + k + 1, added[k].hash)
  {}

  lemma AddedIsAPiece(chain: seq<Block>, m: nat, net: Net, isValidate: bool, added: seq<Block>)
    requires Consistent(net, chain) && Justified(net, isValidate, m + 1, added) && m <= |chain|
    ensures m + |added| <= |chain| && added == chain[m..m + |added|]
    ensures isValidate ==> forall j: nat :: m <= j < m + |added| ==> SuccessorConfirms(chain, j)
  {
    hide Consistent, Justified, Answered, Confirms;
    forall k: nat | k < |added| ensures m + k < |chain| && added[k] == chain[m + k] {
      JustifiedAt(net, isValidate, m + 1, added, k);
      AnswerIsInChain(net, chain, m + 1 + k, added[k]);
    }
    if added != [] {
      JustifiedAt(net, isValidate, m + 1, added, |added| - 1);
      AnswerIsInChain(net, chain, m + |added|, added[|added| - 1]);
    }
    assert added == chain[m..m + |added|];
    if isValidate {
      forall j: nat | m <= j < m + |added| ensures SuccessorConfirms(chain, j) {
        JustifiedAt(net, isValidate, m + 1, added, j - m);
        var next: Block :| Answered(net, j + 2, next) && Confirms(next, added[j - m].hash);
        AnswerIsInChain(net, chain, j + 2, next);
        assert added[j - m] == chain[j];
      }
    }
  }

  lemma HeadersOfPiece(chain: seq<Block>, m: nat, n: nat)
    requires m <= n <= |chain|
    ensures HeadersOf(chain[m..n]) == HeadersOf(chain)[m..n]
  {
    hide HeadersOf;
    var hs, piece := HeadersOf(chain), HeadersOf(chain[m..n]);
    forall k: nat | k < n - m ensures piece[k] == hs[m..n][k] {
      assert chain[m..n][k] == chain[m + k];
    }
  }

  lemma FrontOfPiece<T>(s: seq<T>, m: nat, n: nat)
    requires m < n <= |s|
    ensures s[m..n][..n - m - 1] == s[m..n - 1] && s[m..n][n - m - 1] == s[n - 1]
  {}

  /** A piece of the source added to a node that holds what is in front of it. */
  lemma {:induction false} AddAlong(st: State, source: seq<Header>, m: nat, n: nat)
    requires Chain(source) && m <= n <= |source| && Holds(st, source[..m])
    ensures EachAdded(st, source[m..n]) && Holds(AddEach(st, source[m..n]), source[..n])
    ensures NumbersGiven(st, source[m..n]) == NumberedPiece(source, m, n)
    decreases n
  {
    hide Chain, Holds, Add;
    if m < n {
      AddAlong(st, source, m, n - 1);
      assert source[m..n][..n - 1 - m] == source[m..n - 1];
      NextIsAdded(AddEach(st, source[m..n - 1]), source, n - 1);
    }
  }

  /** The same from any chain that follows the source: each block added got its own number. */
  lemma {:induction false} AddFollowing(st: State, source: seq<Header>, t: nat, m: nat, n: nat)
    requires Chain(source) && m <= n <= |source| && Follows(st, source, t) && |st.hashes| == m + 1
    requires EachAdded(st, source[m..n])
    ensures Follows(AddEach(st, source[m..n]), source, t) && |AddEach(st, source[m..n]).hashes| == n + 1
    ensures NumbersGiven(st, source[m..n]) == NumberedPiece(source, m, n)
    decreases n
  {
    hide Chain, Follows, Add;
    if m < n {
      FrontOfPiece(source, m, n);
      AddFollowing(st, source, t, m, n - 1);
      NextOfSource(AddEach(st, source[m..n - 1]), source, t);
    }
  }

  lemma ProgressMeans(m0: Memory, lastSaved: nat, net: Net, isValidate: bool, added: seq<Block>, unsaved: bool,
                      reached: Memory)
    requires Progress(m0, lastSaved, net, isValidate, added, unsaved, reached)
    ensures var hs := HeadersOf(added);
      && EachAdded(m0.chain, hs) && reached.chain == AddEach(m0.chain, hs)
      && reached.queue == OfferedAll(lastSaved, m0.queue, NumbersGiven(m0.chain, hs))
      && (unsaved ==> added != []) && reached.db == SaveAll(m0.db, if unsaved then hs[..|hs| - 1] else hs)
      && Justified(net, isValidate, |m0.chain.hashes|, added)
  {
    hide Justified, AddEach, EachAdded, NumbersGiven, OfferedAll, SaveAll, ArchiveGrown;
  }

  /** A round that starts from such a chain, right or not, adds the next piece of a consistent source, under its
      own numbers, until a failure or the chain itself ends it. */
  lemma ConsistentSourceIsFollowed(chain: seq<Block>, t: nat, m: nat, m0: Memory, lastSaved: nat, net: Net,
                                   isValidate: bool, added: seq<Block>, unsaved: bool, reached: Memory)
    requires Chain(HeadersOf(chain)) && Consistent(net, chain) && m <= |chain|
    requires Follows(m0.chain, HeadersOf(chain), t) && |m0.chain.hashes| == m + 1
    requires Progress(m0, lastSaved, net, isValidate, added, unsaved, reached)
    ensures m + |added| <= |chain| && added == chain[m..m + |added|] && (unsaved ==> added != [])
    ensures var source, n := HeadersOf(chain), m + |added|;
      && EachAdded(m0.chain, source[m..n]) && reached.chain == AddEach(m0.chain, source[m..n])
      && Follows(reached.chain, source, t) && |reached.chain.hashes| == n + 1
      && reached.queue == OfferedAll(lastSaved, m0.queue, NumberedPiece(source, m, n))
      && reached.db == SaveAll(m0.db, source[m..if unsaved then n - 1 else n])
  {
    hide *;
    var source, n := HeadersOf(chain), m + |added|;
    ProgressMeans(m0, lastSaved, net, isValidate, added, unsaved, reached);
    AddedIsAPiece(chain, m, net, isValidate, added);
    HeadersOfPiece(chain, m, n);
    AddFollowing(m0.chain, source, t, m, n);
    if unsaved { FrontOfPiece(source, m, n); }
  }

  /** Every request for a block of the chain is answered. */
  ghost predicate AlwaysAnswers(net: Net, last: nat) {
    forall i: nat, n: nat :: 0 < n <= last ==> net(i, n).Some?
  }

  ghost predicate AllConfirmed(chain: seq<Block>) {
    forall j: nat :: j + 1 < |chain| ==> SuccessorConfirms(chain, j)
  }

  /** From a consistent source from which every block can be had, with writes that do not fail, no stop signal
      and, with validation, signatures that confirm, a round ends only when it is up to date: every block
      announced has been added, but for the last one when its successor is still to come. */
  lemma OnlyFailuresEndARoundEarly(chain: seq<Block>, k: nat, net: Net, isValidate: bool, faults: Faulty,
      response: Option<LastBlock>, st: State, nextBlockToRead: nat, why: Ending)
    requires Chain(HeadersOf(chain)) && Consistent(net, chain) && k <= |chain|
    requires Holds(st, HeadersOf(chain)[..k]) && nextBlockToRead > 0
    requires response.Some? && response.value.countServers > 0 && response.value.lastBlock <= |chain|
    requires AlwaysAnswers(net, |chain|) && (isValidate ==> AllConfirmed(chain))
    requires !SomeFileFails(faults) && !SomeSaveFails(faults) && !SomeStop(faults)
    requires Explained(why, net, isValidate, faults, response, st, k + 1, nextBlockToRead)
    ensures why == UpToDate && response.value.lastBlock <= k + if isValidate then 1 else 0
  {
    hide Chain, Holds, ChainNumbering.Add, Consistent, Answered, Confirms, AlwaysAnswers, AllConfirmed, SomeFileFails,
      SomeSaveFails, SomeStop, HeadersOf, Failed;
    match why {
      case Unfetched => NeverFailed(net, |chain|, nextBlockToRead);
      case Unconfirmed(held, next) => HeldIsConfirmed(chain, net, k, held, next);
      case Unadded(b) => NextIsTaken(chain, HeadersOf(chain), net, k, st, b);
      case _ =>
    }
  }

  lemma NeverFailed(net: Net, last: nat, n: nat)
    requires AlwaysAnswers(net, last) && 0 < n
    ensures n <= last ==> !Failed(net, n)
  {}

  lemma HeldIsConfirmed(chain: seq<Block>, net: Net, k: nat, held: Block, next: Block)
    requires Consistent(net, chain) && Answered(net, k + 1, held) && Answered(net, k + 2, next)
    ensures AllConfirmed(chain) ==> Confirms(next, held.hash)
  {
    hide Consistent, Answered, Confirms;
    AnswerIsInChain(net, chain, k + 1, held);
    AnswerIsInChain(net, chain, k + 2, next);
    assert AllConfirmed(chain) ==> SuccessorConfirms(chain, k);
  }

  lemma NextIsTaken(chain: seq<Block>, source: seq<Header>, net: Net, k: nat, st: State, b: Block)
    requires source == HeadersOf(chain) && k <= |source| && Chain(source) && Consistent(net, chain)
    requires Holds(st, source[..k]) && Answered(net, k + 1, b)
    ensures ChainNumbering.Add(st, HeaderOf(b)).0.Done?
  {
    hide Chain, Consistent, Holds, HeadersOf, Answered, ChainNumbering.Add;
    AnswerIsInChain(net, chain, k + 1, b);
    NextIsAdded(st, source, k);
  }

  // ----- The block file -----

  /** Blocks added one after another are different ones, and none was filed before. */
  lemma {:induction false} AddedAreNew(st: State, hs: seq<Header>)
    requires EachAdded(st, hs) && "" !in st.blocks && forall h :: h in hs ==> h.number.None?
    ensures "" !in AddEach(st, hs).blocks && st.blocks.Keys <= AddEach(st, hs).blocks.Keys
    ensures forall k: nat :: k < |hs| ==> hs[k].hash in AddEach(st, hs).blocks && hs[k].hash !in st.blocks
    ensures forall j: nat, k: nat :: j < k < |hs| ==> hs[j].hash != hs[k].hash
  {
    hide Add;
    if hs != [] {
      var front, h := hs[..|hs| - 1], hs[|hs| - 1];
      assert hs == front + [h];
      AddedAreNew(st, front);
      AcceptedOnAForkSkipsNumbers(AddEach(st, front), h);
    }
  }

  lemma {:induction false} DumpsOfDifferentBlocks(dumps: map<Hash, Lz4Format.Bytes>, added: seq<Block>)
    requires forall j: nat, k: nat :: j < k < |added| ==> added[j].hash != added[k].hash
    ensures var also := DumpsAlso(dumps, added);
      && (forall k: nat :: k < |added| ==> added[k].hash in also && also[added[k].hash] == added[k].dump)
      && (forall h :: h in dumps && (forall b :: b in added ==> b.hash != h) ==> h in also && also[h] == dumps[h])
  {
    if added != [] {
      var front, b := added[..|added| - 1], added[|added| - 1];
      assert added == front + [b];
      DumpsOfDifferentBlocks(dumps, front);
    }
  }

  lemma {:induction false} DumpsOfOthers(dumps: map<Hash, Lz4Format.Bytes>, added: seq<Block>, h: Hash)
    requires h in DumpsAlso(dumps, added)
    ensures h in dumps || exists k: nat :: k < |added| && added[k].hash == h
  {
    if added != [] {
      var front := added[..|added| - 1];
      if added[|added| - 1].hash != h {
        DumpsOfOthers(dumps, front, h);
        if h !in dumps {
          var k: nat :| k < |front| && front[k].hash == h;
          assert added[k].hash == h;
        }
      }
    }
  }

  /** The dumps that the headers of a round address are those of its own blocks, and of the blocks before. */
  lemma AddedDumps(st: State, dumps: map<Hash, Lz4Format.Bytes>, added: seq<Block>)
    requires EachAdded(st, HeadersOf(added)) && "" !in st.blocks && dumps.Keys <= st.blocks.Keys
    ensures var also := DumpsAlso(dumps, added);
      && (forall k: nat :: k < |added| ==> added[k].hash in also && also[added[k].hash] == added[k].dump)
      && (forall h :: h in dumps ==> h in also && also[h] == dumps[h])
      && also.Keys <= AddEach(st, HeadersOf(added)).blocks.Keys
      && "" !in AddEach(st, HeadersOf(added)).blocks
  {
    hide EachAdded, AddEach, DumpsAlso;
    var hs := HeadersOf(added);
    AddedAreNew(st, hs);
    forall j: nat, k: nat | j < k < |added| ensures added[j].hash != added[k].hash {
      assert hs[j].hash != hs[k].hash;
    }
    forall h, b | h in dumps && b in added ensures b.hash != h {
      var k: nat :| k < |added| && added[k] == b;
      assert hs[k].hash !in st.blocks;
    }
    DumpsOfDifferentBlocks(dumps, added);
    forall h | h in DumpsAlso(dumps, added) ensures h in AddEach(st, hs).blocks {
      DumpsOfOthers(dumps, added, h);
      if h !in dumps {
        var k: nat :| k < |added| && added[k].hash == h;
        assert hs[k].hash == h;
      }
    }
  }

  /** After a round, however it ended, the position in every header addresses the dump of its own block, in the
      headers that were there before and in those added; a refused block leaves a frame that no header
      addresses. The same holds again when the next round begins. */
  lemma RoundsKeepTheArchive(m0: Memory, lastSaved: nat, net: Net, isValidate: bool, added: seq<Block>, unsaved: bool,
                             reached: Memory, why: Ending, dumps: map<Hash, Lz4Format.Bytes>)
    requires Archived(m0.file, m0.filePos, dumps) && "" !in m0.chain.blocks && dumps.Keys <= m0.chain.blocks.Keys
    requires Progress(m0, lastSaved, net, isValidate, added, unsaved, reached)
    requires why.Unadded? ==> Add(reached.chain, HeaderOf(why.block)).0.Thrown?
    ensures var m, also := Left(reached, why), DumpsAlso(dumps, added);
      && Archived(m.file, m.filePos, also) && "" !in m.chain.blocks && also.Keys <= m.chain.blocks.Keys
      && (forall h :: h in dumps ==> h in m.filePos && Addresses(m.file, m.filePos[h], dumps[h]))
      && (forall k: nat :: k < |added| ==>
           added[k].hash in m.filePos && Addresses(m.file, m.filePos[added[k].hash], added[k].dump))
  {
    hide EachAdded, AddEach, NumbersGiven, SaveAll, OfferedAll, Justified, HeadersOf, Add, Addresses, DumpsAlso, Holds;
    AddedDumps(m0.chain, dumps, added);
    if why.Unadded? {
      AddNumbersFromOne(reached.chain, HeaderOf(why.block));
      AppendKeepsArchive(reached.file, reached.filePos, DumpsAlso(dumps, added), why.block.hash, why.block.dump);
    }
  }
}

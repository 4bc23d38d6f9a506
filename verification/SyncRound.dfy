/** The synchronisation loop: loading what is on disk, replaying it to the worker, and rounds of fetching,
    checking, archiving, adding, announcing and saving blocks, any of which may fail. */
module SyncRound {
  import opened Wrappers
  import opened ChainNumbering
  import opened ChainLinks
  import opened ChainLoading
  import opened ChainReload
  import opened BlockArchive
  import opened BlockFeed
  import opened Database
  import opened SavedHeaders
  import opened WorkerMain
  import Lz4Format
  import BlockChain
  import BlockFile

  function HeadersOf(blocks: seq<Block>): (r: seq<Header>)
    ensures |r| == |blocks| && forall i: nat :: i < |r| ==> r[i] == HeaderOf(blocks[i])
    ensures forall i: nat :: i < |r| ==>
      r[i].hash == blocks[i].hash && r[i].prevHash == blocks[i].prevHash && r[i].number.None?
  {
    if blocks == [] then [] else HeadersOf(blocks[..|blocks| - 1]) + [HeaderOf(blocks[|blocks| - 1])]
  }

  /** Every signature in the block confirms the hash. */
  ghost predicate Confirms(b: Block, hash: Hash) {
    forall i: nat :: i < |b.signs| ==> b.signs[i] == hash
  }

  // ----- What a round does -----

  /** Every block was accepted when its turn came. */
  ghost predicate EachAdded(st: State, hs: seq<Header>) {
    hs == [] ||
    var front := hs[..|hs| - 1];
    EachAdded(st, front) && Add(AddEach(st, front), hs[|hs| - 1]).0.Done?
  }

  /** The blocks under the numbers that addBlock gave them. */
  ghost function NumbersGiven(st: State, hs: seq<Header>): (r: seq<Numbered>)
    requires EachAdded(st, hs)
    ensures |r| == |hs|
  {
    if hs == [] then []
    else
      var front, b := hs[..|hs| - 1], hs[|hs| - 1];
      NumbersGiven(st, front) + [b.(number := Some(Add(AddEach(st, front), b).0.value))]
  }

  /** What adding blocks changes: the chain, the worker's queue, the headers on disk, and the block file with
      the place in it that each header carries. */
  datatype Memory = Memory(chain: State, queue: seq<Numbered>, db: Database, file: Lz4Format.Bytes,
                           filePos: map<Hash, nat>)

  /** The dump is in the file and the chain has refused the block. */
  function Orphaned(m: Memory, b: Block): Memory {
    m.(chain := Add(m.chain, HeaderOf(b)).1, file := m.file + BlockFile.Frame(b.dump))
  }

  /** The block is archived, added and announced, and its header saved unless that failed. */
  function Stored(m: Memory, lastSaved: nat, b: Block, saveFails: bool): Memory
    requires Add(m.chain, HeaderOf(b)).0.Done?
  {
    var h, (number, chain) := HeaderOf(b), Add(m.chain, HeaderOf(b));
    Memory(chain, Offered(lastSaved, m.queue, h.(number := Some(number.value))),
           if saveFails then m.db else SaveBlock(m.db, h),
           m.file + BlockFile.Frame(b.dump), m.filePos[b.hash := |m.file|])
  }

  /** Why each block of a round was added: it was given as the next number, and, with validation, the block
      after it was given too and its signatures confirm it. */
  ghost predicate Justified(net: Net, isValidate: bool, first: nat, added: seq<Block>) {
    forall k: nat :: k < |added| ==>
      && Answered(net, first + k, added[k])
      && (isValidate ==> Confirmed(net, first + k + 1, added[k].hash))
  }

  ghost predicate Confirmed(net: Net, n: nat, hash: Hash) {
    exists next: Block :: Answered(net, n, next) && Confirms(next, hash)
  }

  ghost function DumpsAlso(dumps: map<Hash, Lz4Format.Bytes>, added: seq<Block>): map<Hash, Lz4Format.Bytes> {
    if added == [] then dumps
    else DumpsAlso(dumps, added[..|added| - 1])[added[|added| - 1].hash := added[|added| - 1].dump]
  }

  /** Whatever dumps the headers addressed before, they address them still, and the new ones theirs. */
  ghost predicate ArchiveGrown(m0: Memory, added: seq<Block>, m: Memory) {
    forall dumps: map<Hash, Lz4Format.Bytes> ::
      Archived(m0.file, m0.filePos, dumps) ==> Archived(m.file, m.filePos, DumpsAlso(dumps, added))
  }

  /** What a round did: the chain took `added` one after another, the worker was sent the same blocks under
      the numbers they got, the database saved the same ones but for a last one that failed, the file holds
      their dumps at the places the headers say, and each was added for a reason. */
  ghost predicate Progress(m0: Memory, lastSaved: nat, net: Net, isValidate: bool, added: seq<Block>, unsaved: bool,
                           m: Memory) {
    var hs := HeadersOf(added);
    && EachAdded(m0.chain, hs) && m.chain == AddEach(m0.chain, hs)
    && m.queue == OfferedAll(lastSaved, m0.queue, NumbersGiven(m0.chain, hs))
    && (unsaved ==> hs != []) && m.db == SaveAll(m0.db, if unsaved then hs[..|hs| - 1] else hs)
    && ArchiveGrown(m0, added, m)
    && Justified(net, isValidate, |m0.chain.hashes|, added)
  }

  /** Why a round ended. */
  datatype Ending =
    | Unanswered // no last block to be had
    | UpToDate // nothing left to read
    | Unfetched // the next block could not be had
    | Unconfirmed(held: Block, next: Block) // a signature does not confirm the block held
    | Unwritten(block: Block) // its dump could not be written
    | Unadded(block: Block) // the chain did not take it
    | Unsaved // the header of the block just added could not be saved
    | Stopped // a stop signal after a block

  function Left(m: Memory, why: Ending): Memory {
    if why.Unadded? then Orphaned(m, why.block) else m
  }

  /** What goes wrong while the block of one call is handled. */
  datatype Faults = Faults(file: bool, save: bool, stop: bool)

  type Faulty = nat -> Faults

  ghost predicate SomeFileFails(faults: Faulty) {
    exists i: nat :: faults(i).file
  }

  ghost predicate SomeSaveFails(faults: Faulty) {
    exists i: nat :: faults(i).save
  }

  ghost predicate SomeStop(faults: Faulty) {
    exists i: nat :: faults(i).stop
  }

  /** The reason is a real one. `n` is the number of the block to be added next. */
  ghost predicate Explained(why: Ending, net: Net, isValidate: bool, faults: Faulty, response: Option<LastBlock>,
                            st: State, n: nat, nextBlockToRead: nat) {
    match why
    case Unanswered => response.None?
    case UpToDate => response.Some? && response.value.lastBlock < n + if isValidate then 1 else 0
    case Unfetched => response.Some? && (response.value.countServers == 0 || Failed(net, nextBlockToRead))
                      && nextBlockToRead <= response.value.lastBlock
    case Unconfirmed(held, next) =>
      isValidate && Answered(net, n, held) && Answered(net, n + 1, next) && !Confirms(next, held.hash)
    case Unwritten(b) => Answered(net, n, b) && SomeFileFails(faults)
    case Unadded(b) => Answered(net, n, b) && ChainNumbering.Add(st, HeaderOf(b)).0.Thrown?
    case Unsaved => SomeSaveFails(faults)
    case Stopped => SomeStop(faults)
  }

  /** What the next block means for the loop. */
  datatype Decision = GiveUp(why: Ending) | Hold(first: Block) | Ready(ready: Block, next: Block)

  class SyncImpl {
    const isValidate: bool
    const blockchain: BlockChain.BlockChain
    const source: NetworkBlockSource
    const worker: WorkerMain
    const file: BlockFile.File
    var db: Database
    var filePos: map<Hash, nat> // the position part of the headers

    ghost function Now(): Memory
      reads this, blockchain, worker, file
    {
      Memory(blockchain.Now(), worker.queue, db, file.content, filePos)
    }

    constructor (isValidate: bool, blockchain: BlockChain.BlockChain, source: NetworkBlockSource,
                 worker: WorkerMain, file: BlockFile.File, db: Database, filePos: map<Hash, nat>)
      ensures this.isValidate == isValidate && this.blockchain == blockchain && this.source == source
      ensures this.worker == worker && this.file == file && this.db == db && this.filePos == filePos
    {
      this.isValidate, this.blockchain, this.source := isValidate, blockchain, source;
      this.worker, this.file, this.db, this.filePos := worker, file, db, filePos;
    }

    // ----- Start -----

    /** Files every header on disk, in whatever order they come, and numbers them from the last one saved. */
    method LoadBlockchain(order: seq<Header>) returns (r: Outcome<nat>)
      requires forall i: nat :: i < |order| ==> order[i].hash != ""
      modifies blockchain
      ensures blockchain.Filed() && (r, blockchain.Now()) == Load(db, order)
    {
      hide ChainNumbering.Calc;
      blockchain.Clear();
      assert order[..0] == [];
      for i := 0 to |order|
        invariant blockchain.Filed() && blockchain.Now() == State(FileAll(order[..i]), [GENESIS])
      {
        assert order[..i + 1][..i] == order[..i];
        var _ := blockchain.AddWithoutCalc(order[i]);
      }
      assert order[..|order|] == order;
      if db.metaHash == "" { return Done(0); }
      r := blockchain.CalcBlockchain(db.metaHash);
    }

    /** The body of the loop that sends blocks of the chain to the worker again. */
    method ReplayOne(blockNumber: nat)
      requires blockNumber < |blockchain.hashes| && blockchain.hashes[blockNumber] in blockchain.blocks
      requires blockchain.blocks[blockchain.hashes[blockNumber]].number.Some?
      modifies worker`queue
      ensures worker.queue ==
        Offered(worker.lastSavedBlock, old(worker.queue), blockchain.blocks[blockchain.hashes[blockNumber]])
    {
      var bh := blockchain.GetBlockByNumber(blockNumber);
      worker.Process(bh);
    }

    // ----- Rounds -----

    /** Archives, adds, announces and saves one block, as far as that goes. */
    method AddOne(b: Block, faults: Faults) returns (failure: Option<Ending>)
      requires blockchain.Filed() && blockchain.hashes != []
      modifies this`db, this`filePos, blockchain, worker`queue, file
      ensures blockchain.Filed() && blockchain.hashes != []
      ensures failure == Some(Unwritten(b)) <==> faults.file
      ensures failure == Some(Unwritten(b)) ==> Now() == old(Now())
      ensures failure == Some(Unadded(b)) ==>
        old(ChainNumbering.Add(blockchain.Now(), HeaderOf(b)).0).Thrown? && Now() == old(Orphaned(Now(), b))
      ensures failure.None? || failure in {Some(Unsaved), Some(Stopped)} ==>
        && old(ChainNumbering.Add(blockchain.Now(), HeaderOf(b)).0).Done?
        && Now() == old(Stored(Now(), worker.lastSavedBlock, b, faults.save))
        && (failure == Some(Unsaved) <==> faults.save) && (failure == Some(Stopped) ==> faults.stop)
      ensures failure.None? || failure in {Some(Unwritten(b)), Some(Unadded(b)), Some(Unsaved), Some(Stopped)}
    {
      hide ChainNumbering.Add, ChainNumbering.Calc, SaveBlock;
      if faults.file { return Some(Unwritten(b)); }
      var pos := file.SaveBlockToFileBinary(b.dump);
      AddNumbersFromOne(blockchain.Now(), HeaderOf(b));
      var r := blockchain.AddBlock(HeaderOf(b));
      if r.Thrown? { return Some(Unadded(b)); }
      if r.value == 0 { return Some(Unadded(b)); }
      filePos := filePos[b.hash := pos];
      worker.Process(HeaderOf(b).(number := Some(r.value)));
      if faults.save { return Some(Unsaved); }
      db := SaveBlock(db, HeaderOf(b));
      return if faults.stop then Some(Stopped) else None;
    }

    /** Fetches the next block and decides: hold it until its successor is there, or add the block held
        before it, or, without validation, add it at once. */
    method Take(held: Option<Block>, net: Net, call: nat) returns (v: Decision)
      requires source.Holding(net)
      modifies source
      ensures source.Holding(net) && source.lastBlockInBlockchain == old(source.lastBlockInBlockchain)
      ensures source.countServers == old(source.countServers)
      ensures v.GiveUp? ==>
        match v.why
        case UpToDate => source.lastBlockInBlockchain < source.nextBlockToRead == old(source.nextBlockToRead)
        case Unfetched =>
          && (source.countServers == 0 || Failed(net, source.nextBlockToRead))
          && source.nextBlockToRead == old(source.nextBlockToRead) <= source.lastBlockInBlockchain
        case Unconfirmed(b, next) =>
          && isValidate && held == Some(b) && Answered(net, old(source.nextBlockToRead), next)
          && exists i: nat :: i < |next.signs| && next.signs[i] != b.hash
        case _ => false
      ensures source.nextBlockToRead == old(source.nextBlockToRead)
        || source.nextBlockToRead == old(source.nextBlockToRead) + 1 <= source.lastBlockInBlockchain + 1
      ensures !v.GiveUp? ==> source.nextBlockToRead != old(source.nextBlockToRead)
      ensures v.Hold? ==> held.None? && isValidate && Answered(net, old(source.nextBlockToRead), v.first)
      ensures v.Ready? ==> Answered(net, old(source.nextBlockToRead), v.next)
      ensures v.Ready? && isValidate ==>
        held == Some(v.ready) && forall i: nat :: i < |v.next.signs| ==> v.next.signs[i] == v.ready.hash
      ensures v.Ready? && !isValidate ==> v.ready == v.next
    {
      var next := source.Process(net, call);
      if next.Thrown? { return GiveUp(Unfetched); }
      if next.value.None? { return GiveUp(UpToDate); }
      var nextBi := next.value.value;
      if held.None? { return if isValidate then Hold(nextBi) else Ready(nextBi, nextBi); }
      if !isValidate { return Ready(nextBi, nextBi); }
      for i := 0 to |nextBi.signs|
        invariant forall k: nat :: k < i ==> nextBi.signs[k] == held.value.hash
      {
        if nextBi.signs[i] != held.value.hash { return GiveUp(Unconfirmed(held.value, nextBi)); }
      }
      return Ready(held.value, nextBi);
    }

    /** Where an iteration starts that is to add block n: the block to read is n, one more while a block is
        held for validation, which is then the answer to n. */
    ghost predicate InStep(held: Option<Block>, net: Net, n: nat)
      reads source
    {
      var holding := isValidate && held.Some?;
      && source.Holding(net)
      && source.nextBlockToRead == n + (if holding then 1 else 0)
      && (holding ==> Answered(net, n, held.value))
    }

    /** What the source was told about the last block. */
    ghost predicate Told(response: Option<LastBlock>)
      reads source
    {
      && response.Some? && source.lastBlockInBlockchain == response.value.lastBlock
      && source.countServers == response.value.countServers
    }

    /** One iteration of the inner loop. It adds at most one block, the answer to the number wanted next, with
        validation only when the answer to the number after it confirms it. When it stops, why. */
    method Turn(held: Option<Block>, net: Net, call: nat, faults: Faulty, ghost response: Option<LastBlock>,
                ghost n: nat)
      returns (nowHeld: Option<Block>, ghost one: Option<Block>, why: Option<Ending>)
      requires blockchain.Filed() && blockchain.hashes != [] && InStep(held, net, n) && Told(response)
      modifies this`db, this`filePos, blockchain, worker`queue, file, source
      ensures blockchain.Filed() && blockchain.hashes != []
      ensures source.lastBlockInBlockchain == old(source.lastBlockInBlockchain) && Told(response)
      ensures why.Some? ==> (why.value in {Unsaved, Stopped} <==> one.Some?)
      ensures why.Some? && one.None? ==>
        && Now() == Left(old(Now()), why.value)
        && Explained(why.value, net, isValidate, faults, response, old(blockchain.Now()), n, source.nextBlockToRead)
      ensures why.Some? && one.Some? ==>
        Explained(why.value, net, isValidate, faults, response, blockchain.Now(), n + 1, source.nextBlockToRead)
      ensures why.None? ==>
        InStep(nowHeld, net, if one.Some? then n + 1 else n) && nowHeld.Some? && (one.None? ==> Now() == old(Now()))
      ensures why.None? ==>
        source.nextBlockToRead == old(source.nextBlockToRead) + 1 <= source.lastBlockInBlockchain + 1
      ensures one.Some? && isValidate ==>
        && nowHeld.Some? && Answered(net, n + 1, nowHeld.value)
        && forall i: nat :: i < |nowHeld.value.signs| ==> nowHeld.value.signs[i] == one.value.hash
      ensures why.Some? && why.value.Unconfirmed? ==>
        isValidate && exists i: nat :: i < |why.value.next.signs| && why.value.next.signs[i] != why.value.held.hash
      ensures one.Some? ==>
        && Answered(net, n, one.value) && (isValidate ==> Confirmed(net, n + 1, one.value.hash))
        && old(ChainNumbering.Add(blockchain.Now(), HeaderOf(one.value)).0).Done?
        && Now() == old(Stored(Now(), worker.lastSavedBlock, one.value, why == Some(Unsaved)))
    {
      hide Explained, Stored, Orphaned, NetworkBlockSource.Holding, SaveBlock, Answered, ChainNumbering.Add,
        BlockChain.BlockChain.Filed;
      one, why, nowHeld := None, None, held;
      var v := Take(held, net, call);
      match v {
        case GiveUp(reason) =>
          ExplainGivingUp(reason, net, isValidate, faults, response, blockchain.Now(), n, source.nextBlockToRead);
          why := Some(reason);
        case Hold(first) =>
          nowHeld := Some(first);
        case Ready(ready, next) =>
          ghost var st := blockchain.Now();
          why := AddOne(ready, faults(call));
          nowHeld := Some(next);
          if why.None? || why.value in {Unsaved, Stopped} { one := Some(ready); }
          if isValidate { SignedByTheNext(net, n + 1, next, ready.hash); }
          if why.Some? {
            ExplainFailing(why.value, ready, net, isValidate, faults, call, response,
                           if one.Some? then blockchain.Now() else st, if one.Some? then n + 1 else n,
                           source.nextBlockToRead);
          }
      }
    }

    /** The body of the outer loop, from any state of the chain. Whatever the servers answer and whatever
        fails, the blocks added are the answers to consecutive numbers, and chain, worker, database and block
        file get the same ones, but for a last block that was not saved, or archived for nothing. */
    method Round(response: Option<LastBlock>, net: Net, faults: Faulty)
      returns (ghost added: seq<Block>, ghost reached: Memory, why: Ending)
      requires blockchain.Filed() && blockchain.hashes != []
      modifies this`db, this`filePos, blockchain, worker`queue, file, source
      ensures blockchain.Filed() && blockchain.hashes != []
      ensures Progress(old(Now()), worker.lastSavedBlock, net, isValidate, added, why == Unsaved, reached)
      ensures Now() == Left(reached, why)
      ensures Explained(why, net, isValidate, faults, response, reached.chain, old(|blockchain.hashes|) + |added|,
                        source.nextBlockToRead)
      ensures why.Unconfirmed? ==>
        isValidate && exists i: nat :: i < |why.next.signs| && why.next.signs[i] != why.held.hash
    {
      hide Explained, Progress, Stored, Orphaned, NetworkBlockSource.Holding, SaveBlock, Confirmed, Answered,
        ChainNumbering.Add, BlockChain.BlockChain.Filed, InStep, Told;
      ghost var m0, n0 := Now(), |blockchain.hashes|;
      added, reached, why := [], m0, Unanswered;
      NothingLeft(m0, worker.lastSavedBlock, net, isValidate);
      var count := blockchain.CountBlocks();
      var started := source.DoProcess(count, response);
      EndsAtOnce(net, isValidate, faults, response, blockchain.Now(), n0, source.nextBlockToRead);
      if started.Thrown? { return; }
      why := UpToDate;
      NotOrphaned(reached, why);
      var isContinue := started.value.0;
      if !isContinue { return; }
      var prevBi: Option<Block> := None;
      var call := 0;
      HoldingNothing(source, net);
      StepBegins(this, net, n0, response);
      while true
        invariant blockchain.Filed() && blockchain.hashes != [] && Told(response)
        invariant InStep(prevBi, net, n0 + |added|) && Now() == reached
        invariant Progress(m0, worker.lastSavedBlock, net, isValidate, added, false, reached)
        decreases source.lastBlockInBlockchain + 1 - source.nextBlockToRead
      {
        call := call + 1;
        ghost var one;
        var ending;
        prevBi, one, ending := Turn(prevBi, net, call, faults, response, n0 + |added|);
        if one.Some? {
          MoreProgress(m0, worker.lastSavedBlock, net, isValidate, added, reached, one.value, ending == Some(Unsaved));
          added, reached := added + [one.value], Now();
        }
        if ending.Some? {
          why := ending.value;
          if one.Some? { NotOrphaned(reached, why); }
          return;
        }
      }
    }
  }

  /** addBlock never gives the number 0. */
  lemma AddNumbersFromOne(st: State, b: Header)
    requires b.number.None?
    ensures Add(st, b).0.Done? ==> Add(st, b).0.value > 0 && b.hash !in st.blocks
    ensures Add(st, b).0.Done? ==> Add(st, b).1.hashes != []
    ensures st.hashes != [] ==> Add(st, b).1.hashes != []
    ensures Add(st, b).1.blocks.Keys == st.blocks.Keys + if Add(st, b).0.Done? then {b.hash} else {}
  {
    hide Walk, Calc;
    if b.hash != "" && b.hash !in st.blocks {
      var filed := State(st.blocks[b.hash := b], st.hashes);
      var us, end := Walk(filed.blocks, b.hash, []).0, Walk(filed.blocks, b.hash, []).1;
      CalcByCases(filed, b.hash, us, end);
      WalkFromOpen(filed.blocks, b.hash);
    }
  }

  lemma WalkFromOpen(blocks: Blocks, h: Hash)
    requires h in blocks && blocks[h].number.None?
    ensures Walk(blocks, h, []).0 != []
  {
    WalkStep(blocks, h, []);
    var p := blocks[h].prevHash;
    if p != "" && p in blocks { WalkInside(blocks, p, [] + [h]); }
  }

  lemma SignedByTheNext(net: Net, n: nat, next: Block, hash: Hash)
    requires Answered(net, n, next) && forall i: nat :: i < |next.signs| ==> next.signs[i] == hash
    ensures Confirmed(net, n, hash)
  {
    hide Answered;
    assert Confirms(next, hash);
  }

  lemma NotOrphaned(m: Memory, why: Ending)
    requires !why.Unadded?
    ensures Left(m, why) == m
  {}

  lemma StepBegins(sync: SyncImpl, net: Net, n: nat, response: Option<LastBlock>)
    requires sync.source.Holding(net) && sync.source.nextBlockToRead == n
    requires response.Some? && sync.source.lastBlockInBlockchain == response.value.lastBlock
    requires sync.source.countServers == response.value.countServers
    ensures sync.InStep(None, net, n) && sync.Told(response)
  {}

  lemma ExplainGivingUp(why: Ending, net: Net, isValidate: bool, faults: Faulty, response: Option<LastBlock>,
                        st: State, n: nat, next: nat)
    requires response.Some?
    requires match why
      case UpToDate => response.value.lastBlock < next <= n + if isValidate then 1 else 0
      case Unfetched => (response.value.countServers == 0 || Failed(net, next)) && next <= response.value.lastBlock
      case Unconfirmed(held, b) =>
        isValidate && Answered(net, n, held) && Answered(net, n + 1, b) && !Confirms(b, held.hash)
      case _ => false
    ensures Explained(why, net, isValidate, faults, response, st, n, next)
  {}

  lemma ExplainFailing(why: Ending, b: Block, net: Net, isValidate: bool, faults: Faulty, call: nat,
                       response: Option<LastBlock>, st: State, n: nat, next: nat)
    requires match why
      case Unwritten(c) => c == b && Answered(net, n, b) && faults(call).file
      case Unadded(c) => c == b && Answered(net, n, b) && ChainNumbering.Add(st, HeaderOf(b)).0.Thrown?
      case Unsaved => faults(call).save
      case Stopped => faults(call).stop
      case _ => false
    ensures Explained(why, net, isValidate, faults, response, st, n, next)
  {}

  lemma EndsAtOnce(net: Net, isValidate: bool, faults: Faulty, response: Option<LastBlock>, st: State, n: nat,
                   next: nat)
    ensures response.None? ==> Explained(Unanswered, net, isValidate, faults, response, st, n, next)
    ensures response.Some? && response.value.lastBlock < n ==>
      Explained(UpToDate, net, isValidate, faults, response, st, n, next)
  {}

  lemma HoldingNothing(source: NetworkBlockSource, net: Net)
    requires source.advancedBlocks == map[]
    ensures source.Holding(net)
  {}

  lemma NothingLeft(m: Memory, lastSaved: nat, net: Net, isValidate: bool)
    ensures Progress(m, lastSaved, net, isValidate, [], false, m) && Left(m, Unanswered) == m
  {}

  lemma MoreProgress(m0: Memory, lastSaved: nat, net: Net, isValidate: bool, added: seq<Block>, m: Memory, b: Block,
                     saveFails: bool)
    requires Progress(m0, lastSaved, net, isValidate, added, false, m)
    requires Add(m.chain, HeaderOf(b)).0.Done?
    requires Answered(net, |m0.chain.hashes| + |added|, b)
    requires isValidate ==> Confirmed(net, |m0.chain.hashes| + |added| + 1, b.hash)
    ensures Progress(m0, lastSaved, net, isValidate, added + [b], saveFails, Stored(m, lastSaved, b, saveFails))
  {
    hide Answered, Confirmed, HeadersOf, EachAdded, AddEach, NumbersGiven, SaveAll, SaveBlock, ArchiveGrown, OfferedAll,
      Offered, Add, Justified;
    OneMoreHeader(added, b);
    OneMoreAdded(m0.chain, HeadersOf(added), HeaderOf(b));
    OneMoreOffered(lastSaved, m0.queue, NumbersGiven(m0.chain, HeadersOf(added)),
                   HeaderOf(b).(number := Some(Add(m.chain, HeaderOf(b)).0.value)));
    OneMoreSaved(m0.db, HeadersOf(added), HeaderOf(b));
    OneMoreArchived(m0, added, m, lastSaved, b, saveFails);
    OneMoreJustified(net, isValidate, |m0.chain.hashes|, added, b);
  }

  lemma OneMoreHeader(added: seq<Block>, b: Block)
    ensures HeadersOf(added + [b]) == HeadersOf(added) + [HeaderOf(b)]
  {
    assert (added + [b])[..|added|] == added;
  }

  lemma OneMoreAdded(st: State, hs: seq<Header>, h: Header)
    requires EachAdded(st, hs) && Add(AddEach(st, hs), h).0.Done?
    ensures EachAdded(st, hs + [h]) && AddEach(st, hs + [h]) == Add(AddEach(st, hs), h).1
    ensures NumbersGiven(st, hs + [h]) ==
      NumbersGiven(st, hs) + [h.(number := Some(Add(AddEach(st, hs), h).0.value))]
  {
    hide Add;
    assert (hs + [h])[..|hs|] == hs;
  }

  lemma OneMoreOffered(lastSaved: nat, queue: seq<Numbered>, bs: seq<Numbered>, b: Numbered)
    ensures OfferedAll(lastSaved, queue, bs + [b]) == Offered(lastSaved, OfferedAll(lastSaved, queue, bs), b)
  {
    assert (bs + [b])[..|bs|] == bs;
  }

  lemma OneMoreSaved(db: Database, hs: seq<Header>, h: Header)
    ensures SaveAll(db, hs + [h]) == SaveBlock(SaveAll(db, hs), h)
    ensures (hs + [h])[..|hs + [h]| - 1] == hs
  {
    assert (hs + [h])[..|hs|] == hs;
  }

  lemma OneMoreArchived(m0: Memory, added: seq<Block>, m: Memory, lastSaved: nat, b: Block, saveFails: bool)
    requires ArchiveGrown(m0, added, m) && Add(m.chain, HeaderOf(b)).0.Done?
    ensures ArchiveGrown(m0, added + [b], Stored(m, lastSaved, b, saveFails))
  {
    hide Archived, Add;
    var m' := Stored(m, lastSaved, b, saveFails);
    forall dumps: map<Hash, Lz4Format.Bytes> | Archived(m0.file, m0.filePos, dumps)
      ensures Archived(m'.file, m'.filePos, DumpsAlso(dumps, added + [b]))
    {
      assert (added + [b])[..|added|] == added;
      AppendKeepsArchive(m.file, m.filePos, DumpsAlso(dumps, added), b.hash, b.dump);
    }
  }

  lemma OneMoreJustified(net: Net, isValidate: bool, first: nat, added: seq<Block>, b: Block)
    requires Justified(net, isValidate, first, added)
    requires Answered(net, first + |added|, b)
    requires isValidate ==> Confirmed(net, first + |added| + 1, b.hash)
    ensures Justified(net, isValidate, first, added + [b])
  {
    hide Answered, Confirmed;
  }
}
